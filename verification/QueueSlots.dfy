/**
 Message slots of a leased queue, and the two questions a claim asks of them: which
 position is the first one that can be claimed now, and when does a stretch of the queue
 next have something to claim. A position whose page cannot be reached has no slot.
 */
module QueueSlots {
  import opened Bits

  const SEG_SLOTS: nat := 62
  const HELD: nat := 0
  const CLAIMED: nat := 1
  const ACKED: nat := 2

  datatype Slot = Slot(state: nat, until: u64, token: nat)

  type Slots = map<nat, Slot>

  predicate Claimable(slots: Slots, p: nat, now: u64) {
    p in slots && (slots[p].state == HELD || (slots[p].state == CLAIMED && slots[p].until <= now))
  }

  /** The message can be claimed from a time on, and not before. */
  ghost predicate ClaimableFrom(slots: Slots, p: nat, time: nat) {
    forall now: u64 :: Claimable(slots, p, now) <==> now >= time
  }

  ghost predicate NeverClaimable(slots: Slots, p: nat) {
    forall now: u64 :: !Claimable(slots, p, now)
  }

  /** Nothing but the one message has changed. */
  ghost predicate OthersKept(before: Slots, after: Slots, p: nat) {
    forall q :: q != p ==> (q in after <==> q in before) && (q in before ==> after[q] == before[q])
  }

  function Least(a: u64, b: u64): (m: u64)
    ensures m <= a && m <= b && (m == a || m == b)
  {
    if a < b then a else b
  }

  /** When one position can be claimed: zero is now and always, U64_MAX never. */
  function ReadyAt(slots: Slots, p: nat): (r: u64) {
    if p !in slots then U64_MAX
    else if slots[p].state == HELD then 0
    else if slots[p].state == CLAIMED then slots[p].until
    else U64_MAX
  }

  /** When a stretch of positions next has something to claim. */
  function Ready(slots: Slots, lo: nat, hi: nat): (r: u64)
    decreases hi
  {
    if lo >= hi then U64_MAX else Least(Ready(slots, lo, hi - 1), ReadyAt(slots, hi - 1))
  }

  /** Expiry needs no write: the summary says at any later time what the slots say. */
  lemma {:induction false} ReadyMeans(slots: Slots, lo: nat, hi: nat, now: u64)
    requires now < U64_MAX
    ensures Ready(slots, lo, hi) <= now <==> exists p :: lo <= p < hi && Claimable(slots, p, now)
    decreases hi
  {
    if lo < hi {
      ReadyMeans(slots, lo, hi - 1, now);
      assert ReadyAt(slots, hi - 1) <= now <==> Claimable(slots, hi - 1, now);
    }
  }

  lemma {:induction false} ReadySplit(slots: Slots, lo: nat, mid: nat, hi: nat)
    requires lo <= mid <= hi
    ensures Ready(slots, lo, hi) == Least(Ready(slots, lo, mid), Ready(slots, mid, hi))
    decreases hi
  {
    if mid < hi {
      ReadySplit(slots, lo, mid, hi - 1);
    }
  }

  lemma {:induction false} ReadySame(slots: Slots, other: Slots, lo: nat, hi: nat)
    requires forall p :: lo <= p < hi ==> ReadyAt(slots, p) == ReadyAt(other, p)
    ensures Ready(slots, lo, hi) == Ready(other, lo, hi)
    decreases hi
  {
    if lo < hi {
      ReadySame(slots, other, lo, hi - 1);
    }
  }

  lemma {:induction false} ReadyBelow(slots: Slots, lo: nat, hi: nat, p: nat)
    requires lo <= p < hi
    ensures Ready(slots, lo, hi) <= ReadyAt(slots, p)
    decreases hi
  {
    if p < hi - 1 {
      ReadyBelow(slots, lo, hi - 1, p);
    }
  }

  /** The stretch without one of its positions. */
  function ReadyWithout(slots: Slots, lo: nat, hi: nat, p: nat): (r: u64) {
    Least(Ready(slots, lo, p), Ready(slots, p + 1, hi))
  }

  lemma ReadyAround(slots: Slots, lo: nat, hi: nat, p: nat)
    requires lo <= p < hi
    ensures Ready(slots, lo, hi) == Least(ReadyWithout(slots, lo, hi, p), ReadyAt(slots, p))
  {
    ReadySplit(slots, lo, p, hi);
    ReadySplit(slots, p, p + 1, hi);
    assert Ready(slots, p, p + 1) == Least(Ready(slots, p, p), ReadyAt(slots, p));
  }

  /** Changing one slot changes a stretch only through that slot. */
  lemma ReadyChanged(slots: Slots, lo: nat, hi: nat, p: nat, s: Slot)
    ensures lo <= p < hi ==>
      Ready(slots[p := s], lo, hi) == Least(ReadyWithout(slots, lo, hi, p), ReadyAt(slots[p := s], p))
    ensures !(lo <= p < hi) ==> Ready(slots[p := s], lo, hi) == Ready(slots, lo, hi)
  {
    var other := slots[p := s];
    if lo <= p < hi {
      ReadySame(other, slots, lo, p);
      ReadySame(other, slots, p + 1, hi);
      ReadyAround(other, lo, hi, p);
    } else {
      ReadySame(other, slots, lo, hi);
    }
  }

  /** The first claimable position of a window, or none. */
  ghost predicate IsFirstClaimable(slots: Slots, head: nat, tail: nat, now: u64, found: bool, pos: nat) {
    && (found ==> head <= pos < tail && Claimable(slots, pos, now))
    && (forall p :: head <= p < (if found then pos else tail) ==> !Claimable(slots, p, now))
  }

  /** There is only one such answer. */
  lemma FirstClaimableUnique(slots: Slots, head: nat, tail: nat, now: u64, f1: bool, p1: nat, f2: bool, p2: nat)
    requires IsFirstClaimable(slots, head, tail, now, f1, p1)
    requires IsFirstClaimable(slots, head, tail, now, f2, p2)
    ensures f1 == f2 && (f1 ==> p1 == p2)
  {
  }

  /** The naive answer: walk forward from the head. */
  method NaiveScan(slots: Slots, head: nat, tail: nat, now: u64) returns (found: bool, pos: nat)
    ensures IsFirstClaimable(slots, head, tail, now, found, pos)
  {
    pos := head;
    while pos < tail
      invariant head <= pos
      invariant forall p :: head <= p < pos ==> !Claimable(slots, p, now)
    {
      if Claimable(slots, pos, now) {
        return true, pos;
      }
      pos := pos + 1;
    }
    found := false;
  }

  // Segments

  /** The live part of a segment. The end of the last segment of the number space wraps. */
  function SegLo(seg: nat, head: nat): (lo: nat) {
    if seg * SEG_SLOTS < head then head else seg * SEG_SLOTS
  }

  function SegHi(seg: nat, tail: nat): (hi: nat) {
    if Wrap64(seg * SEG_SLOTS + SEG_SLOTS) > tail then tail else Wrap64(seg * SEG_SLOTS + SEG_SLOTS)
  }

  function SegReady(slots: Slots, seg: nat, head: nat, tail: nat): (r: u64) {
    Ready(slots, SegLo(seg, head), SegHi(seg, tail))
  }

  lemma SegWidth(seg: nat, head: nat, tail: nat)
    ensures SegHi(seg, tail) <= SegLo(seg, head) + SEG_SLOTS
  {
    var end := seg * SEG_SLOTS + SEG_SLOTS;
    assert Wrap64(end) <= end;
  }

  /** What a segment's page would carry: a scan that stops at the first free message. */
  method SegmentReadyAt(slots: Slots, seg: nat, head: nat, tail: nat) returns (best: u64, read: nat)
    ensures best == SegReady(slots, seg, head, tail)
    ensures read <= SEG_SLOTS
  {
    var lo, hi := SegLo(seg, head), SegHi(seg, tail);
    SegWidth(seg, head, tail);
    best := U64_MAX;
    read := 0;
    var p := lo;
    while p < hi
      invariant lo <= p <= if lo < hi then hi else lo
      invariant best == Ready(slots, lo, p)
      invariant read <= p - lo
    {
      if p in slots {
        read := read + 1;
        if slots[p].state == HELD {
          ReadyBelow(slots, lo, hi, p);
          best := 0;
          return;
        }
        if slots[p].state == CLAIMED && slots[p].until < best {
          best := slots[p].until;
        }
      }
      p := p + 1;
    }
  }
}
