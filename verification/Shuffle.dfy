/**
 The shuffled dataset: rows are visited in the order r -> (r * A + B) mod rows, with the first
 odd multiplier from a fixed start that has no factor in common with the row count. The search
 ends for every row count but zero, and the order visits every row exactly once.
 */
module Shuffle {

  const MULTIPLIER: nat := 6364136223846793005
  const INCREMENT: nat := 1442695040888963407

  function Gcd(a: nat, b: nat): (d: nat)
    decreases b
  {
    if b == 0 then a else Gcd(b, a % b)
  }

  lemma Division(a: nat, b: nat)
    requires b > 0
    ensures a == (a / b) * b + a % b && a % b < b && a / b >= 0
  {
  }

  /** The greatest common divisor divides both: the quotients. */
  lemma {:induction false} GcdDivides(a: nat, b: nat) returns (p: nat, q: nat)
    ensures a == p * Gcd(a, b) && b == q * Gcd(a, b)
    decreases b
  {
    if b == 0 {
      p, q := 1, 0;
    } else {
      var p', q' := GcdDivides(b, a % b);
      Division(a, b);
      p, q := Quotients(a, b, a / b, a % b, p', q', Gcd(b, a % b));
    }
  }

  lemma Quotients(a: nat, b: nat, k: int, r: nat, p: nat, q: nat, d: nat) returns (x: nat, y: nat)
    requires k >= 0 && a == k * b + r && b == p * d && r == q * d
    ensures a == x * d && b == y * d
  {
    Combine(k, p, q, d);
    x, y := k * p + q, p;
  }

  lemma Combine(k: int, p: nat, q: nat, d: nat)
    requires k >= 0
    ensures k * (p * d) + q * d == (k * p + q) * d && k * p + q >= 0
  {
  }

  /** It is a combination of the two: the coefficients. */
  lemma {:induction false} Bezout(a: nat, b: nat) returns (u: int, v: int)
    ensures u * a + v * b == Gcd(a, b)
    decreases b
  {
    if b == 0 {
      u, v := 1, 0;
    } else {
      var u', v' := Bezout(b, a % b);
      Division(a, b);
      Rearrange(u', v', a, b, a / b, a % b);
      u, v := v', u' - v' * (a / b);
    }
  }

  lemma Rearrange(u: int, v: int, a: nat, b: nat, k: nat, r: nat)
    requires a == k * b + r
    ensures v * a + (u - v * k) * b == u * b + v * r
  {
  }

  // The search

  /** One more than a multiple of the row count has no factor in common with it. */
  lemma OneMore(k: nat, rows: nat)
    requires rows > 0
    ensures Gcd(k * rows + 1, rows) == 1
  {
    var d := Gcd(k * rows + 1, rows);
    var p, q := GcdDivides(k * rows + 1, rows);
    Leftover(k, q, p, d);
  }

  lemma Leftover(k: nat, q: nat, p: nat, d: nat)
    requires k * (q * d) + 1 == p * d
    ensures d == 1
  {
    assert (p - k * q) * d == 1 by {
      assert k * (q * d) == (k * q) * d;
    }
    UnitFactor(p - k * q, d);
  }

  lemma UnitFactor(x: int, d: nat)
    requires x * d == 1
    ensures d == 1
  {
    if d >= 2 {
      if x >= 1 {
        AtLeastDouble(x, d);
      } else {
        NotPositive(x, d);
      }
    }
  }

  lemma AtLeastDouble(x: int, d: nat)
    requires x >= 1 && d >= 2
    ensures x * d >= 2
  {
  }

  lemma NotPositive(x: int, d: nat)
    requires x <= 0
    ensures x * d <= 0
  {
  }

  /** The `while` loop of the generator: the first odd number from the start on that will do. */
  method FindMultiplier(rows: nat) returns (a: nat)
    requires rows > 0
    ensures a >= MULTIPLIER && a % 2 == 1 && Gcd(a, rows) == 1
    ensures forall b: nat :: MULTIPLIER <= b < a && b % 2 == 1 ==> Gcd(b, rows) != 1
  {
    ghost var target := Target(MULTIPLIER, rows);
    var good := (x: nat) => Gcd(x, rows) == 1;
    a := FirstOdd(MULTIPLIER, good, target);
    assert forall b: nat :: good(b) <==> Gcd(b, rows) == 1;
  }

  method FirstOdd(start: nat, good: nat -> bool, ghost target: nat) returns (a: nat)
    requires start % 2 == 1 && target >= start && target % 2 == 1 && good(target)
    ensures a >= start && a % 2 == 1 && good(a)
    ensures forall b: nat :: start <= b < a && b % 2 == 1 ==> !good(b)
  {
    a := start;
    while !good(a)
      invariant start <= a <= target && a % 2 == 1
      invariant forall b: nat :: start <= b < a && b % 2 == 1 ==> !good(b)
      decreases target - a
    {
      a := a + 2;
    }
  }

  /** Far enough out there is an odd number that will do. */
  lemma Target(m: nat, rows: nat) returns (t: nat)
    requires rows > 0
    ensures t >= m && t % 2 == 1 && Gcd(t, rows) == 1
  {
    t := (2 * m) * rows + 1;
    OneMore(2 * m, rows);
    assert (2 * m) * rows == 2 * (m * rows);
    AtLeastOnce(m, rows);
  }

  lemma AtLeastOnce(m: nat, rows: nat)
    requires rows > 0
    ensures m * rows >= m
  {
  }

  /** With no rows there is nothing to find: the search would not end. */
  lemma NoRows(a: nat)
    requires a >= MULTIPLIER
    ensures Gcd(a, 0) != 1
  {
  }

  // The order

  function Affine(r: nat, a: nat, b: nat, rows: nat): (p: nat)
    requires rows > 0
    ensures p < rows
  {
    (r * a + b) % rows
  }

  /** The place of row r, with multiplier and increment reduced first. */
  function Index(r: nat, a: nat, rows: nat): (p: nat)
    requires rows > 0
    ensures p < rows
  {
    Affine(r, a % rows, INCREMENT % rows, rows)
  }

  /** x and y leave the same remainder: x - y is this multiple of n. */
  ghost predicate Apart(x: int, y: int, k: int, n: int) {
    x - y == k * n
  }

  lemma SameRemainder(x: nat, y: nat, n: nat) returns (k: int)
    requires n > 0 && x % n == y % n
    ensures Apart(x, y, k, n)
  {
    Division(x, n);
    Division(y, n);
    k := x / n - y / n;
    Spread(x / n, y / n, n);
  }

  lemma Spread(p: int, q: int, n: int)
    ensures (p - q) * n == p * n - q * n
  {
  }

  lemma RemainderUnique(x: int, y: int, k: int, n: int)
    requires 0 <= x < n && 0 <= y < n && Apart(x, y, k, n)
    ensures x == y
  {
    if k >= 1 {
      Multiple(k, n);
    } else if k <= -1 {
      Multiple(-k, n);
    }
  }

  lemma Multiple(k: int, n: int)
    requires k >= 1 && n > 0
    ensures k * n >= n
  {
  }

  /** No two rows come at the same place. */
  lemma Injective(r: nat, s: nat, a: nat, rows: nat)
    requires rows > 0 && Gcd(a, rows) == 1 && r < rows && s < rows
    requires Index(r, a, rows) == Index(s, a, rows)
    ensures r == s
  {
    var u, v := Bezout(a, rows);
    var q, am := a / rows, a % rows;
    Division(a, rows);
    InjectiveBy(r, s, a, q, am, INCREMENT % rows, u, v, rows);
  }

  lemma InjectiveBy(r: nat, s: nat, a: nat, q: int, am: nat, b: nat, u: int, v: int, rows: nat)
    requires 0 < rows && r < rows && s < rows && u * a + v * rows == 1 && a == q * rows + am
    requires Affine(r, am, b, rows) == Affine(s, am, b, rows)
    ensures r == s
  {
    var k := SameRemainder(r * am + b, s * am + b, rows);
    var c := CancelFactor(r, s, am, q, k, u, v, a, rows);
    RemainderUnique(r, s, c, rows);
  }

  /** A factor prime to n can be cancelled from a difference that n divides. */
  lemma CancelFactor(r: int, s: int, am: int, q: int, k: int, u: int, v: int, a: int, n: int) returns (c: int)
    requires r * am - s * am == k * n && a == q * n + am && u * a + v * n == 1
    ensures Apart(r, s, c, n)
  {
    var d := r - s;
    assert d * am == k * n;
    c := u * k + (u * q + v) * d;
    calc {
      d;
      d * (u * a + v * n);
      { Regroup(d, u, q, am, v, n, a); }
      u * (d * am) + ((u * q + v) * d) * n;
      u * (k * n) + ((u * q + v) * d) * n;
      { Gather(u, k, n, (u * q + v) * d); }
      c * n;
    }
  }

  lemma Regroup(d: int, u: int, q: int, am: int, v: int, n: int, a: int)
    requires a == q * n + am
    ensures d * (u * a + v * n) == u * (d * am) + ((u * q + v) * d) * n
  {
  }

  lemma Gather(u: int, k: int, n: int, e: int)
    ensures u * (k * n) + e * n == (u * k + e) * n
  {
  }

  /** Every place has its row. */
  lemma Surjective(p: nat, a: nat, rows: nat) returns (r: nat)
    requires rows > 0 && Gcd(a, rows) == 1 && p < rows
    ensures r < rows && Index(r, a, rows) == p
  {
    var u, v := Bezout(a, rows);
    r := SurjectiveBy(p, a, a / rows, a % rows, INCREMENT % rows, u, v, rows);
  }

  lemma SurjectiveBy(p: nat, a: nat, q: int, am: nat, b: nat, u: int, v: int, rows: nat) returns (r: nat)
    requires 0 < rows && p < rows && u * a + v * rows == 1 && a == q * rows + am
    ensures r < rows && (r * am + b) % rows == p
  {
    var x := u * (p - b);
    r := x % rows;
    var k := x / rows;
    assert x == k * rows + r;
    var c := Reaches(p, b, u, v, a, q, am, r, k, rows);
    RemainderIs(r * am + b, p, c, rows);
  }

  lemma Reaches(p: int, b: int, u: int, v: int, a: int, q: int, am: int, r: int, k: int, n: int) returns (c: int)
    requires u * (p - b) == k * n + r && u * a + v * n == 1 && a == q * n + am
    ensures Apart(r * am + b, p, c, n)
  {
    var e := p - b;
    c := -(k * am + (v + u * q) * e);
    assert u * am + (v + u * q) * n == 1 by {
      Unfolded(u, q, n, am, v);
    }
    calc {
      r * am - e;
      (u * e - k * n) * am - e * (u * am + (v + u * q) * n);
      { Settle(u, e, k, n, am, v + u * q); }
      c * n;
    }
  }

  lemma Unfolded(u: int, q: int, n: int, am: int, v: int)
    ensures u * (q * n + am) + v * n == u * am + (v + u * q) * n
  {
  }

  lemma Settle(u: int, e: int, k: int, n: int, am: int, w: int)
    ensures (u * e - k * n) * am - e * (u * am + w * n) == -(k * am + w * e) * n
  {
  }

  lemma RemainderIs(x: nat, p: nat, c: int, n: nat)
    requires p < n && Apart(x, p, c, n)
    ensures x % n == p
  {
    Division(x, n);
    Spread(x / n, c, n);
    RemainderUnique(x % n, p, c - x / n, n);
  }

  /** The rows in the order the generator visits them. */
  function Order(rows: nat, a: nat): (o: seq<nat>)
    requires rows > 0
    ensures |o| == rows
  {
    seq(rows, r requires 0 <= r < rows => Index(r, a, rows))
  }

  /** The order is a permutation of the rows. */
  lemma Permutation(rows: nat, a: nat)
    requires rows > 0 && Gcd(a, rows) == 1
    ensures forall r, s :: 0 <= r < s < rows ==> Order(rows, a)[r] != Order(rows, a)[s]
    ensures forall p: nat :: p in Order(rows, a) <==> p < rows
  {
    var o := Order(rows, a);
    forall r, s | 0 <= r < s < rows ensures o[r] != o[s] {
      if o[r] == o[s] {
        Injective(r, s, a, rows);
      }
    }
    forall p: nat ensures p in o <==> p < rows {
      if p < rows {
        var r := Surjective(p, a, rows);
        assert o[r] == p;
      }
    }
  }

  /** Reducing multiplier and increment first changes no place. */
  lemma Reduced(r: nat, a: nat, b: nat, rows: nat)
    requires rows > 0
    ensures Affine(r, a % rows, b % rows, rows) == Affine(r, a, b, rows)
  {
    Division(a, rows);
    Division(b, rows);
    ReducedBy(r, a, a / rows, a % rows, b, b / rows, b % rows, rows);
  }

  lemma ReducedBy(r: nat, a: nat, p: nat, am: nat, b: nat, q: nat, bm: nat, rows: nat)
    requires rows > 0 && a == p * rows + am && b == q * rows + bm
    ensures Affine(r, am, bm, rows) == Affine(r, a, b, rows)
  {
    var x := r * am + bm;
    Division(x, rows);
    var c := Restored(r, a, p, am, b, q, bm, x / rows, Affine(r, am, bm, rows), rows);
    RemainderIs(r * a + b, Affine(r, am, bm, rows), c, rows);
  }

  lemma Restored(r: int, a: int, p: int, am: int, b: int, q: int, bm: int, k: int, place: int, n: int) returns (c: int)
    requires a == p * n + am && b == q * n + bm && Apart(r * am + bm, place, k, n)
    ensures Apart(r * a + b, place, c, n)
  {
    c := r * p + q + k;
    assert r * (p * n + am) == (r * p) * n + r * am;
    assert (r * p) * n + q * n + k * n == c * n;
  }

  /** `make_shuffled_generator`: the multiplier is the least odd number from its start on that has no
      factor in common with the row count, and gives every row a place of its own. */
  method MakeOrder(rows: nat) returns (o: seq<nat>, ghost a: nat)
    requires rows > 0
    ensures |o| == rows && (forall r, s :: 0 <= r < s < rows ==> o[r] != o[s])
    ensures forall p: nat :: p in o <==> p < rows
    ensures a >= 6364136223846793005 && a % 2 == 1 && Gcd(a, rows) == 1
    ensures forall b: nat :: 6364136223846793005 <= b < a && b % 2 == 1 ==> Gcd(b, rows) != 1
    ensures forall r :: 0 <= r < rows ==> o[r] == Affine(r, a, 1442695040888963407, rows)
  {
    var found := FindMultiplier(rows);
    a := found;
    Permutation(rows, a);
    forall r | 0 <= r < rows ensures Index(r, a, rows) == Affine(r, a, INCREMENT, rows) {
      Reduced(r, a, INCREMENT, rows);
    }
    o := Order(rows, found);
  }
}
