/**
 Checksums by a shift register, for any words and any step that can be undone, drops the
 lowest bit and otherwise only moves bits down. Messages that differ within the width of
 the register leave it in different states.
 */
module ShiftRegister {

  const BYTE: nat := 8

  /** Names the words a law is used for. */
  ghost predicate For<W>(a: W, b: W) {
    true
  }

  /** The step of the register, exclusive or, a shift up by one bit, whether the highest bit is
      clear, and a byte as a word. */
  datatype Register<!W(!new), !B(!new)> = Register(step: W -> W, xor: (W, W) -> W, up: W -> W, clear: W -> bool,
      embed: B -> W, zero: W) {

    ghost predicate StepLaws() {
      && (forall c, d {:trigger For(c, d)} :: For(c, d) && step(c) == step(d) ==> c == d)
      && (forall x, y {:trigger For(x, y)} :: For(x, y) && clear(y) ==> step(xor(x, up(y))) == xor(step(x), y))
    }

    ghost predicate Associative() {
      forall a, b, c {:trigger For(a, b), For(b, c)} :: For(a, b) && For(b, c) ==>
        xor(a, xor(b, c)) == xor(xor(a, b), c)
    }

    ghost predicate Cancels() {
      && (forall a, b, k {:trigger For(a, b), For(b, k)} :: For(a, b) && For(b, k) && xor(a, k) == xor(b, k) ==> a == b)
      && (forall a, b, k {:trigger For(a, b), For(b, k)} :: For(a, b) && For(b, k) && xor(k, a) == xor(k, b) ==> a == b)
      && (forall a {:trigger For(a, zero)} :: For(a, zero) ==> xor(a, zero) == a)
    }

    ghost predicate Shifts() {
      && (forall a, b {:trigger For(a, b)} :: For(a, b) && clear(a) && clear(b) ==> clear(xor(a, b)))
      && (forall a, b {:trigger For(a, b)} :: For(a, b) ==> up(xor(a, b)) == xor(up(a), up(b)))
    }

    ghost predicate XorLaws() {
      Associative() && Cancels() && Shifts()
    }

    /** Four bytes fit into a word without overlap. */
    ghost predicate ByteLaws() {
      && (forall b :: Room(embed(b), 3 * BYTE))
      && Room(zero, 4 * BYTE)
      && (forall a, b, v, w ::
            Room(v, BYTE) && Room(w, BYTE) && xor(embed(a), Ups(v, BYTE)) == xor(embed(b), Ups(w, BYTE)) ==>
              a == b && v == w)
    }

    ghost predicate Lawful() {
      StepLaws() && XorLaws() && ByteLaws()
    }

    function Steps(c: W, n: nat): (r: W)
      decreases n
    {
      if n == 0 then c else Steps(step(c), n - 1)
    }

    function Ups(y: W, n: nat): (r: W)
      decreases n
    {
      if n == 0 then y else Ups(up(y), n - 1)
    }

    /** A word that can be shifted up n times without losing a bit. */
    predicate Room(y: W, n: nat)
      decreases n
    {
      n == 0 || (clear(y) && Room(up(y), n - 1))
    }

    function ByteStep(c: W, b: B): (r: W) {
      Steps(xor(c, embed(b)), BYTE)
    }

    function Run(c: W, data: seq<B>): (r: W)
      decreases |data|
    {
      if |data| == 0 then c else Run(ByteStep(c, data[0]), data[1..])
    }

    /** Up to four bytes as one word. */
    function Joined(m: seq<B>): (w: W)
      decreases |m|
    {
      if |m| == 0 then zero else xor(embed(m[0]), Ups(Joined(m[1..]), BYTE))
    }

    lemma {:induction false} StepsInjective(c: W, d: W, n: nat)
      requires StepLaws() && Steps(c, n) == Steps(d, n)
      ensures c == d
      decreases n
    {
      if n != 0 {
        StepsInjective(step(c), step(d), n - 1);
        assert For(c, d);
      }
    }

    /** Different states stay different whatever follows. */
    lemma {:induction false} RunInjective(c: W, d: W, data: seq<B>)
      requires Lawful() && Run(c, data) == Run(d, data)
      ensures c == d
      decreases |data|
    {
      if |data| != 0 {
        var b := embed(data[0]);
        RunInjective(ByteStep(c, data[0]), ByteStep(d, data[0]), data[1..]);
        StepsInjective(xor(c, b), xor(d, b), BYTE);
        assert For(c, d) && For(d, b);
      }
    }

    lemma {:induction false} RunAppend(c: W, m: seq<B>, n: seq<B>)
      ensures Run(c, m + n) == Run(Run(c, m), n)
      decreases |m|
    {
      if |m| == 0 {
        assert m + n == n;
      } else {
        assert (m + n)[1..] == m[1..] + n;
        RunAppend(ByteStep(c, m[0]), m[1..], n);
      }
    }

    lemma RunThrice(c: W, x: seq<B>, y: seq<B>, z: seq<B>, c1: W, c2: W, c3: W)
      requires Run(c, x) == c1 && Run(c1, y) == c2 && Run(c2, z) == c3
      ensures Run(c, x + y + z) == c3
    {
      RunAppend(c, x, y);
      RunAppend(c, x + y, z);
    }

    lemma RunThree(c: W, x: B, y: B, z: B)
      ensures Run(c, [x, y, z]) == ByteStep(ByteStep(ByteStep(c, x), y), z)
    {
      var d, e := ByteStep(c, x), ByteStep(ByteStep(c, x), y);
      assert [x, y, z][1..] == [y, z] && [y, z][1..] == [z] && [z][1..] == [];
      assert Run(e, [z]) == Run(ByteStep(e, z), []);
      assert Run(d, [y, z]) == Run(e, [z]);
    }

    lemma {:induction false} StepsSum(c: W, m: nat, n: nat)
      ensures Steps(Steps(c, m), n) == Steps(c, m + n)
      decreases m
    {
      if m != 0 {
        StepsSum(step(c), m - 1, n);
      }
    }

    lemma {:induction false} UpsLast(y: W, n: nat)
      requires n > 0
      ensures Ups(y, n) == up(Ups(y, n - 1))
      decreases n
    {
      if n != 1 {
        UpsLast(up(y), n - 1);
      }
    }

    lemma {:induction false} RoomUps(y: W, k: nat, n: nat)
      requires Room(y, k + n)
      ensures Room(Ups(y, k), n)
      decreases k
    {
      if k != 0 {
        RoomUps(up(y), k - 1, n);
      }
    }

    lemma {:induction false} RoomLess(y: W, n: nat, k: nat)
      requires Room(y, n) && k <= n
      ensures Room(y, k)
      decreases n
    {
      if k != 0 {
        RoomLess(up(y), n - 1, k - 1);
      }
    }

    lemma {:induction false} RoomXor(a: W, b: W, n: nat)
      requires XorLaws() && Room(a, n) && Room(b, n)
      ensures Room(xor(a, b), n)
      decreases n
    {
      assert For(a, b);
      if n != 0 {
        RoomXor(up(a), up(b), n - 1);
      }
    }

    /** Bits that have n places to fall are only moved down by n steps. */
    lemma {:induction false} StepsShift(x: W, y: W, n: nat)
      requires StepLaws() && Room(y, n)
      ensures Steps(xor(x, Ups(y, n)), n) == xor(Steps(x, n), y)
      decreases n
    {
      if n != 0 {
        UpsLast(y, n);
        RoomUps(y, n - 1, 1);
        RoomLess(y, n, n - 1);
        assert For(x, Ups(y, n - 1));
        StepsShift(step(x), y, n - 1);
      }
    }

    lemma {:induction false} JoinedRoom(m: seq<B>)
      requires Lawful() && |m| <= 4
      ensures Room(Joined(m), BYTE * (4 - |m|))
      decreases |m|
    {
      if |m| != 0 {
        var n := BYTE * (4 - |m|);
        JoinedRoom(m[1..]);
        RoomUps(Joined(m[1..]), BYTE, n);
        RoomLess(embed(m[0]), 3 * BYTE, n);
        RoomXor(embed(m[0]), Ups(Joined(m[1..]), BYTE), n);
      }
    }

    /** A byte, then a word, goes through the register like the two joined. */
    lemma JoinStep(c: W, b: B, w: W, k: nat, joined: W, end: W)
      requires StepLaws() && XorLaws() && Room(w, BYTE)
      requires joined == xor(embed(b), Ups(w, BYTE)) && end == Steps(xor(ByteStep(c, b), w), k)
      ensures end == Steps(xor(c, joined), BYTE + k)
    {
      var x := xor(c, embed(b));
      assert For(c, embed(b)) && For(embed(b), Ups(w, BYTE));
      StepsShift(x, w, BYTE);
      StepsSum(xor(x, Ups(w, BYTE)), BYTE, k);
    }

    lemma TailRoom(m: seq<B>)
      requires Lawful() && |m| < 4
      ensures Room(Joined(m), BYTE)
    {
      JoinedRoom(m);
      RoomLess(Joined(m), BYTE * (4 - |m|), BYTE);
    }

    lemma RunNothing(c: W, m: seq<B>)
      requires |m| == 0 && XorLaws()
      ensures Run(c, m) == Steps(xor(c, Joined(m)), 0)
    {
      assert For(c, zero);
    }

    /** Up to four bytes go through the register like one word of that many bits. */
    lemma {:induction false} RunJoined(c: W, m: seq<B>, bits: nat)
      requires Lawful() && |m| <= 4 && bits == BYTE * |m|
      ensures Run(c, m) == Steps(xor(c, Joined(m)), bits)
      decreases |m|
    {
      if |m| == 0 {
        RunNothing(c, m);
      } else {
        var b, rest, k := m[0], m[1..], bits - BYTE;
        TailRoom(rest);
        RunJoined(ByteStep(c, b), rest, k);
        JoinStep(c, b, Joined(rest), k, Joined(m), Run(c, m));
      }
    }

    lemma {:induction false} JoinedInjective(m: seq<B>, n: seq<B>)
      requires Lawful() && |m| == |n| <= 4 && Joined(m) == Joined(n)
      ensures m == n
      decreases |m|
    {
      if |m| != 0 {
        TailRoom(m[1..]);
        TailRoom(n[1..]);
        JoinedInjective(m[1..], n[1..]);
        assert m == [m[0]] + m[1..] && n == [n[0]] + n[1..];
      }
    }

    /** Messages that differ, but only within four consecutive bytes, end in different states. */
    lemma Burst(c: W, front: seq<B>, m: seq<B>, n: seq<B>, back: seq<B>)
      requires Lawful() && |m| == |n| <= 4 && Run(c, front + m + back) == Run(c, front + n + back)
      ensures m == n
    {
      var d := Run(c, front);
      RunAppend(c, front + m, back);
      RunAppend(c, front, m);
      RunAppend(c, front + n, back);
      RunAppend(c, front, n);
      RunInjective(Run(d, m), Run(d, n), back);
      RunJoined(d, m, BYTE * |m|);
      RunJoined(d, n, BYTE * |m|);
      StepsInjective(xor(d, Joined(m)), xor(d, Joined(n)), BYTE * |m|);
      assert For(Joined(m), Joined(n)) && For(Joined(n), d);
      JoinedInjective(m, n);
    }
  }
}
