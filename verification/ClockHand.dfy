/** Clock hands: an index that goes round the slots of a set. */
module ClockHand {
  /** How many steps a hand at h is away from slot i, among n slots. */
  function Ahead(h: nat, i: nat, n: nat): (t: nat)
    requires h < n && i < n
    ensures t < n
  {
    if h <= i then i - h else i + n - h
  }

  lemma NextSlot(h: nat, v: nat, n: nat)
    requires h < n && v < n
    ensures (v + 1) % n == (if v + 1 < n then v + 1 else 0)
    ensures Ahead(h, (v + 1) % n, n) == if Ahead(h, v, n) + 1 < n then Ahead(h, v, n) + 1 else 0
  {
    if v + 1 < n {
      Small(v + 1, n);
    }
  }

  lemma Small(a: nat, n: nat)
    requires a < n
    ensures a % n == a
  {
  }
}
