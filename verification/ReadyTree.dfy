/**
 The ready-at tree: a fanout-8 tree of minima over 512 leaves, one per live segment of the
 queue, the leaves a ring indexed by the absolute segment number.
 */
module ReadyTree {
  import opened Bits
  import opened QueueSlots
  import opened ReadyLeaves
  import opened ReadySearch
  import opened Wrappers

  /** `m = UINT64_MAX; for (c) if (child < m) m = child;` over the eight children of a node. */
  method MinOfEight(a: array<u64>, i: nat) returns (m: u64)
    requires 8 * i + 8 <= a.Length
    ensures m == Min(Block(a[..], i))
  {
    m := U64_MAX;
    for c := 0 to 8
      invariant m == Min(a[8 * i..8 * i + c])
    {
      assert a[8 * i..8 * i + c + 1][..c] == a[8 * i..8 * i + c];
      if a[8 * i + c] < m {
        m := a[8 * i + c];
      }
    }
    assert a[8 * i..8 * i + 8] == Block(a[..], i);
  }

  method BuildLevel(below: array<u64>, above: array<u64>)
    requires below.Length == 8 * above.Length && below != above
    modifies above
    ensures above[..] == Parents(below[..])
  {
    for i := 0 to above.Length
      invariant forall k :: 0 <= k < i ==> above[k] == Min(Block(below[..], k))
    {
      above[i] := MinOfEight(below, i);
    }
  }

  class Tree {
    const leaf: array<u64>       // one per segment, by segment number modulo 512
    const l2: array<u64>         // each over 8 leaves
    const l1: array<u64>         // each over 64
    var l0: u64                  // the root
    var slots: Slots
    var head: nat
    var tail: nat
    var maintSlots: nat          // slots re-read by the last operation
    var maintNodes: nat          // nodes written by the last operation
    var summaryNodes: nat        // what a search has read
    var segments: nat
    var slotsInspected: nat

    ghost predicate Shape() {
      leaf.Length == LEAVES && l2.Length == 64 && l1.Length == 8
    }

    /** Every node is the minimum of its children. */
    ghost predicate Summed()
      reads this`l0, leaf, l2, l1
    {
      Shape() && l2[..] == Parents(leaf[..]) && l1[..] == Parents(l2[..]) && l0 == Min(l1[..])
    }

    /** The tree a full rebuild from the slots gives. */
    ghost predicate Built()
      reads this`l0, this`slots, this`head, this`tail, leaf, l2, l1
    {
      Summed() && leaf[..] == LeavesOf(slots, head, tail)
    }

    constructor (slots: Slots, head: nat, tail: nat)
      ensures Shape() && this.slots == slots && this.head == head && this.tail == tail
      ensures fresh(leaf) && fresh(l2) && fresh(l1)
    {
      leaf, l2, l1, l0 := new u64[LEAVES], new u64[64], new u64[8], U64_MAX;
      this.slots, this.head, this.tail := slots, head, tail;
      maintSlots, maintNodes, summaryNodes, segments, slotsInspected := 0, 0, 0, 0, 0;
    }

    /** `tree_build`. */
    method Build()
      requires Shape() && Window(head, tail)
      modifies this`l0, leaf, l2, l1
      ensures Built()
    {
      BuildLeaves();
      BuildLevel(leaf, l2);
      BuildLevel(l2, l1);
      l0 := MinOfEight(l1, 0);
      assert Block(l1[..], 0) == l1[..];
    }

    method BuildLeaves()
      requires Shape() && Window(head, tail)
      modifies leaf
      ensures leaf[..] == LeavesOf(slots, head, tail)
    {
      for i := 0 to LEAVES
        invariant forall k :: 0 <= k < i ==> leaf[k] == U64_MAX
      {
        leaf[i] := U64_MAX;
      }
      if head != tail {
        var s := FirstSeg(head);
        while s <= LastSeg(tail)
          invariant FirstSeg(head) <= s <= LastSeg(tail) + 1
          invariant forall k :: 0 <= k < LEAVES ==>
            leaf[k] == if SegAt(head, k) < s then SegReady(slots, SegAt(head, k), head, tail) else U64_MAX
          decreases LastSeg(tail) + 1 - s
        {
          var v, _ := SegmentReadyAt(slots, s, head, tail);
          SegAtUnique(head, s);
          leaf[s % LEAVES] := v;
          s := s + 1;
        }
      }
    }

    // Keeping the tree

    /** Climb from a changed leaf, stopping where a minimum does not move. */
    method Propagate(k: nat, rose: bool, ghost before: seq<u64>)
      requires Shape() && k < LEAVES && |before| == LEAVES
      requires leaf[..] == before[k := leaf[k]] && (!rose ==> leaf[k] <= before[k])
      requires l2[..] == Parents(before) && l1[..] == Parents(l2[..]) && l0 == Min(l1[..])
      modifies this`l0, this`maintNodes, l2, l1
      ensures Summed()
      ensures maintNodes <= old(maintNodes) + 3
    {
      var i2 := k / 8;
      ghost var above := l2[..];
      ParentsUpdate(before, k, leaf[k]);
      if !rose {
        LoweredBlock(before, k, leaf[k]);
        if leaf[k] >= l2[i2] {
          assert above[i2 := above[i2]] == above;
          return;
        }
        l2[i2] := leaf[k];
      } else {
        var m := MinOfEight(leaf, i2);
        if m == l2[i2] {
          assert above[i2 := above[i2]] == above;
          return;
        }
        l2[i2] := m;
      }
      maintNodes := maintNodes + 1;
      Climb(i2, above);
    }

    method Climb(i2: nat, ghost before: seq<u64>)
      requires Shape() && i2 < 64 && |before| == 64
      requires l2[..] == Parents(leaf[..]) && l2[..] == before[i2 := l2[i2]]
      requires l1[..] == Parents(before) && l0 == Min(l1[..])
      modifies this`l0, this`maintNodes, l1
      ensures Summed()
      ensures maintNodes <= old(maintNodes) + 2
    {
      var i1 := i2 / 8;
      ParentsUpdate(before, i2, l2[i2]);
      var m := MinOfEight(l2, i1);
      if m == l1[i1] {
        assert l1[..][i1 := m] == l1[..];
        return;
      }
      l1[i1] := m;
      maintNodes := maintNodes + 1;
      m := MinOfEight(l1, 0);
      assert Block(l1[..], 0) == l1[..];
      if m == l0 {
        return;
      }
      l0 := m;
      maintNodes := maintNodes + 1;
    }

    /** Used where the readiness cannot rise: the new value is compared with the leaf and
        nothing is re-read. */
    method Lower(seg: nat, value: u64)
      requires Summed()
      modifies this`l0, this`maintNodes, leaf, l2, l1
      ensures Summed()
      ensures leaf[..] == old(leaf[..])[seg % LEAVES := Least(old(leaf[seg % LEAVES]), value)]
      ensures maintNodes <= old(maintNodes) + 3
    {
      var k := seg % LEAVES;
      if value < leaf[k] {
        ghost var before := leaf[..];
        leaf[k] := value;
        Propagate(k, false, before);
      }
    }

    /** Used where the readiness may rise: only the slots of the segment can tell by how much. */
    method Rescan(seg: nat)
      requires Summed()
      modifies this`l0, this`maintNodes, this`maintSlots, leaf, l2, l1
      ensures Summed()
      ensures leaf[..] == old(leaf[..])[seg % LEAVES := SegReady(slots, seg, head, tail)]
      ensures maintSlots <= old(maintSlots) + SEG_SLOTS && maintNodes <= old(maintNodes) + 3
    {
      var k := seg % LEAVES;
      var best, read := SegmentReadyAt(slots, seg, head, tail);
      maintSlots := maintSlots + read;
      if best != leaf[k] {
        var rose := best > leaf[k];
        ghost var before := leaf[..];
        leaf[k] := best;
        Propagate(k, rose, before);
      }
    }

    /** `set_state`: nothing happens where there is no slot. */
    method SetState(pos: nat, s: Slot)
      modifies this`slots
      ensures slots == Stored(old(slots), pos, s)
    {
      if pos in slots {
        slots := slots[pos := s];
      }
    }

    /** Enqueueing and handing back: the leaf drops to zero without a look at the slots. */
    method Free(pos: nat, token: nat)
      requires Summed()
      modifies this`slots, this`l0, this`maintNodes, this`maintSlots, leaf, l2, l1
      ensures Summed() && slots == Stored(old(slots), pos, Slot(HELD, 0, token))
      ensures leaf[..] == old(leaf[..])[(pos / SEG_SLOTS) % LEAVES := 0]
      ensures maintSlots == 0 && maintNodes <= 3
    {
      maintSlots, maintNodes := 0, 0;
      SetState(pos, Slot(HELD, 0, token));
      Lower(pos / SEG_SLOTS, 0);
    }

    /** Exact if and only if there was a slot to free in a segment that can be seen, or the
        segment was at zero before. */
    method Enqueue(pos: nat)
      requires Summed() && Window(head, tail) && head <= pos < tail
      modifies this`slots, this`l0, this`maintNodes, this`maintSlots, leaf, l2, l1
      ensures Summed() && slots == Effect(old(slots), OpEnqueue(pos))
      ensures OthersKept(old(slots), slots, pos) && (pos in old(slots) ==> ClaimableFrom(slots, pos, 0))
      ensures leaf[..] == Kept(old(slots), old(leaf[..]), head, tail, OpEnqueue(pos))
      ensures old(Built()) ==> (Built() <==> FreeIsExact(old(slots), head, tail, pos))
      ensures maintSlots == 0 && maintNodes <= 3
    {
      StepExactIff(slots, head, tail, OpEnqueue(pos));
      EffectMeans(slots, OpEnqueue(pos));
      Free(pos, 0);
    }

    method Nack(pos: nat)
      requires Summed() && Window(head, tail) && head <= pos < tail
      modifies this`slots, this`l0, this`maintNodes, this`maintSlots, leaf, l2, l1
      ensures Summed() && slots == Effect(old(slots), OpNack(pos))
      ensures OthersKept(old(slots), slots, pos) && (pos in old(slots) ==> ClaimableFrom(slots, pos, 0))
      ensures leaf[..] == Kept(old(slots), old(leaf[..]), head, tail, OpNack(pos))
      ensures old(Built()) ==> (Built() <==> FreeIsExact(old(slots), head, tail, pos))
      ensures maintSlots == 0 && maintNodes <= 3
    {
      StepExactIff(slots, head, tail, OpNack(pos));
      EffectMeans(slots, OpNack(pos));
      Free(pos, 9);
    }

    method Claim(pos: nat)
      requires Summed() && Window(head, tail) && head <= pos < tail
      modifies this`slots, this`l0, this`maintNodes, this`maintSlots, leaf, l2, l1
      ensures Summed() && slots == Effect(old(slots), OpClaim(pos))
      ensures OthersKept(old(slots), slots, pos)
        && (pos in old(slots) ==> ClaimableFrom(slots, pos, Wrap64(1_700_000_060_000 + pos)))
      ensures leaf[..] == Kept(old(slots), old(leaf[..]), head, tail, OpClaim(pos))
      ensures old(Built()) ==> Built()
      ensures maintSlots <= SEG_SLOTS && maintNodes <= 3
    {
      StepExactIff(slots, head, tail, OpClaim(pos));
      EffectMeans(slots, OpClaim(pos));
      maintSlots, maintNodes := 0, 0;
      SetState(pos, Slot(CLAIMED, Wrap64(FUTURE + pos), 5));
      Rescan(pos / SEG_SLOTS);
    }

    /** The segment is re-read only when the message's deadline is the value of the leaf. That
        is exact unless the message was free with a deadline left in its slot, and nothing else
        in its segment was ready at zero. */
    method Ack(pos: nat)
      requires Summed() && Window(head, tail) && head <= pos < tail
      modifies this`slots, this`l0, this`maintNodes, this`maintSlots, leaf, l2, l1
      ensures Summed() && slots == Effect(old(slots), OpAck(pos))
      ensures OthersKept(old(slots), slots, pos) && (pos in old(slots) ==> NeverClaimable(slots, pos))
      ensures leaf[..] == Kept(old(slots), old(leaf[..]), head, tail, OpAck(pos))
      ensures old(Built()) ==> (Built() <==> !AckGoesStale(old(slots), head, tail, pos))
      ensures maintSlots <= SEG_SLOTS && maintNodes <= 3
    {
      StepExactIff(slots, head, tail, OpAck(pos));
      EffectMeans(slots, OpAck(pos));
      var seg := pos / SEG_SLOTS;
      var was := if pos in slots then slots[pos].until else 0;
      maintSlots, maintNodes := 0, 0;
      SetState(pos, Slot(ACKED, 0, 6));
      if was == leaf[seg % LEAVES] {
        Rescan(seg);
      }
    }

    method Perform(op: Op)
      requires Summed() && Window(head, tail) && head <= op.pos < tail
      modifies this`slots, this`l0, this`maintNodes, this`maintSlots, leaf, l2, l1
      ensures Summed() && slots == Effect(old(slots), op)
      ensures leaf[..] == Kept(old(slots), old(leaf[..]), head, tail, op)
    {
      match op {
        case OpEnqueue(pos) => Enqueue(pos);
        case OpClaim(pos) => Claim(pos);
        case OpNack(pos) => Nack(pos);
        case OpAck(pos) => Ack(pos);
      }
    }

    /** Any run of operations. A tree that was exact stays so, after every operation of the run,
        if and only if every operation meets its guard. */
    method Run(ops: seq<Op>)
      requires Summed() && Window(head, tail) && InWindow(ops, head, tail)
      modifies this`slots, this`l0, this`maintNodes, this`maintSlots, leaf, l2, l1
      ensures Summed() && slots == After(old(slots), ops)
      ensures leaf[..] == KeptAll(old(slots), old(leaf[..]), head, tail, ops)
      ensures old(Built()) ==>
        (ExactThroughout(old(slots), head, tail, ops) <==> Guarded(old(slots), head, tail, ops))
      ensures old(Built()) && Guarded(old(slots), head, tail, ops) ==> Built()
    {
      ghost var before := leaf[..];
      for i := 0 to |ops|
        invariant Summed() && slots == After(old(slots), ops[..i])
        invariant leaf[..] == KeptAll(old(slots), before, head, tail, ops[..i])
      {
        assert ops[..i + 1][..i] == ops[..i];
        Perform(ops[i]);
      }
      assert ops[..|ops|] == ops;
      RunExactIff(old(slots), head, tail, ops);
    }

    // Searching the tree

    function NodeValue(level: nat, idx: nat): (v: u64)
      requires Shape() && level <= 3 && idx < Count(level)
      reads this`l0, leaf, l2, l1
    {
      if level == 0 then l0 else if level == 1 then l1[idx] else if level == 2 then l2[idx] else leaf[idx]
    }

    lemma NodeCovers(level: nat, idx: nat)
      requires Summed() && level <= 3 && idx < Count(level)
      ensures NodeValue(level, idx) == Min(leaf[..][idx * Span(level)..(idx + 1) * Span(level)])
    {
      if level == 3 {
        assert leaf[..][idx..idx + 1] == [leaf[idx]];
        MinOne(leaf[idx]);
      } else if level == 2 {
        assert leaf[..][idx * 8..(idx + 1) * 8] == Block(leaf[..], idx);
      } else if level == 1 {
        GrandParents(leaf[..], idx);
      } else {
        GreatGrandParents(leaf[..]);
      }
    }

    /** A search reads its node if the node's leaves meet [lo, hi], and looks below it only if
        the node is ready. The counters say what it cost. */
    method NodeSearch(level: nat, idx: nat, lo: nat, hi: nat, now: u64) returns (r: int)
      requires Summed() && level <= 3 && idx < Count(level) && lo <= hi < LEAVES
      modifies this`summaryNodes, this`segments
      ensures Leftmost(leaf[..], From(level, idx, lo), To(level, idx, hi), now, r)
      ensures Cost(level, Meets(level, idx, lo, hi), NodeValue(level, idx) <= now, Width(level, idx, lo, hi, r),
                   summaryNodes - old(summaryNodes), segments - old(segments))
      decreases 3 - level, 2
    {
      var span := Span(level);
      var base := idx * span;
      if base > hi || base + span - 1 < lo {
        return -1;
      }
      if level == 3 {
        segments := segments + 1;
      } else {
        summaryNodes := summaryNodes + 1;
      }
      NodeCovers(level, idx);
      if NodeValue(level, idx) > now {
        NoneReady(leaf[..], base, base + span, now);
        return -1;
      }
      if level == 3 {
        MinOne(leaf[idx]);
        return base;
      }
      r := Children(level, idx, lo, hi, now);
    }

    /** The children of a ready node, in order, until one of them answers. */
    method Children(level: nat, idx: nat, lo: nat, hi: nat, now: u64) returns (r: int)
      requires Summed() && level < 3 && idx < Count(level) && lo <= hi < LEAVES
      requires Meets(level, idx, lo, hi)
      modifies this`summaryNodes, this`segments
      ensures Leftmost(leaf[..], From(level, idx, lo), To(level, idx, hi), now, r)
      ensures summaryNodes - old(summaryNodes) <= Below(level, Width(level, idx, lo, hi, r))
      ensures segments - old(segments) <= LeafReads(level, Width(level, idx, lo, hi, r))
      ensures summaryNodes >= old(summaryNodes) && segments >= old(segments)
      decreases 3 - level, 1
    {
      var c := 0;
      while c < 8
        invariant 0 <= c <= 8
        invariant forall i :: From(level, idx, lo) <= i < To(level, idx, hi) && i < (8 * idx + c) * Span(level + 1) ==>
          leaf[i] > now
        invariant summaryNodes >= old(summaryNodes) && segments >= old(segments)
        invariant summaryNodes - old(summaryNodes) <= (if level < 2 then c else 0)
          + Failed(level, idx, lo, hi, c, false)
        invariant segments - old(segments) <= (if level < 2 then 0 else c) + Failed(level, idx, lo, hi, c, true)
      {
        r := TryChild(level, idx, c, lo, hi, now);
        if r >= 0 {
          return;
        }
        c := c + 1;
      }
      r := -1;
      AllFailed(level, idx, lo, hi);
    }

    method TryChild(level: nat, idx: nat, c: nat, lo: nat, hi: nat, now: u64) returns (r: int)
      requires Summed() && level < 3 && idx < Count(level) && lo <= hi < LEAVES && c < 8
      modifies this`summaryNodes, this`segments
      ensures Leftmost(leaf[..], From(level + 1, 8 * idx + c, lo), To(level + 1, 8 * idx + c, hi), now, r)
      ensures summaryNodes >= old(summaryNodes) && segments >= old(segments)
      ensures r >= 0 ==>
        && summaryNodes - old(summaryNodes) + (if level < 2 then c else 0) + Failed(level, idx, lo, hi, c, false)
           <= Below(level, Width(level, idx, lo, hi, r))
        && segments - old(segments) + (if level < 2 then 0 else c) + Failed(level, idx, lo, hi, c, true)
           <= LeafReads(level, Width(level, idx, lo, hi, r))
      ensures r < 0 ==>
        && summaryNodes - old(summaryNodes) + Failed(level, idx, lo, hi, c, false)
           <= (if level < 2 then 1 else 0) + Failed(level, idx, lo, hi, c + 1, false)
        && segments - old(segments) + Failed(level, idx, lo, hi, c, true)
           <= (if level < 2 then 0 else 1) + Failed(level, idx, lo, hi, c + 1, true)
      decreases 3 - level, 0
    {
      var child := 8 * idx + c;
      r := NodeSearch(level + 1, child, lo, hi, now);
      if r >= 0 {
        SuccessCost(level, idx, lo, hi, c, r);
      } else {
        NodeCovers(level + 1, child);
        FailureCost(level, idx, lo, hi, c, now, leaf[..], NodeValue(level + 1, child));
      }
    }

    /** The leaves from a to b in ring order: one range, or two when the window wraps. */
    method SearchRing(a: nat, b: nat, now: u64) returns (k: int)
      requires Summed() && a < LEAVES && b < LEAVES
      modifies this`summaryNodes, this`segments
      ensures -1 <= k < LEAVES
      ensures k >= 0 ==> leaf[k] <= now && InRing(a, b, k)
      ensures forall i :: 0 <= i < LEAVES && InRing(a, b, i) && (k >= 0 ==> Before(a, i, k)) ==> leaf[i] > now
      ensures summaryNodes <= old(summaryNodes) + (if a <= b then 25 else 34) && segments <= old(segments) + 16
    {
      if a <= b {
        k := NodeSearch(0, 0, a, b, now);
      } else {
        k := NodeSearch(0, 0, a, LEAVES - 1, now);
        if k < 0 {
          k := NodeSearch(0, 0, 0, b, now);
        }
      }
    }

    /** The first live segment whose leaf is ready. */
    method FindSegment(now: u64) returns (seg: int)
      requires Summed() && Window(head, tail) && head < tail
      modifies this`summaryNodes, this`segments
      ensures seg >= 0 ==> FirstSeg(head) <= seg <= LastSeg(tail) && leaf[seg % LEAVES] <= now
      ensures forall t :: FirstSeg(head) <= t <= LastSeg(tail) && (seg >= 0 ==> t < seg) ==> leaf[t % LEAVES] > now
      ensures summaryNodes <= old(summaryNodes) + 34 && segments <= old(segments) + 16
    {
      var first, last := FirstSeg(head), LastSeg(tail);
      var a, b := first % LEAVES, last % LEAVES;
      var k := SearchRing(a, b, now);
      seg := if k < 0 then -1 else first + (k - a) % LEAVES;
      forall t | first <= t <= last
        ensures InRing(a, b, t % LEAVES)
        ensures k >= 0 && t < seg ==> Before(a, t % LEAVES, k)
      {
        LiveInRing(first, last, t);
        if k >= 0 && t < seg {
          RingOrder(first, t, k);
        }
      }
      if k >= 0 {
        RingSegment(first, last, k);
      }
      if seg > last {
        seg := -1;
      }
    }

    /** In a tree that is exact, the first claimable position within reach, for every rotation of
        the ring. That is the answer of the plain walk over the window exactly when something
        within reach can be claimed, or nothing at all. */
    method Scan(now: u64) returns (found: bool, pos: nat)
      requires Summed() && Window(head, tail)
      modifies this`summaryNodes, this`segments, this`slotsInspected
      ensures found ==> Claimable(slots, pos, now)
      ensures Built() ==> IsFirstClaimable(slots, head, Reach(head, tail, now), now, found, pos)
      ensures Built() ==>
        (IsFirstClaimable(slots, head, tail, now, found, pos) <==> Agrees(slots, head, tail, now))
      ensures summaryNodes <= old(summaryNodes) + 34 && segments <= old(segments) + 16
      ensures slotsInspected <= old(slotsInspected) + SEG_SLOTS
    {
      found, pos := false, 0;
      if head == tail {
        return;
      }
      var seg := FindSegment(now);
      if seg >= 0 {
        found, pos := ScanSegment(seg, now);
      }
      if Built() {
        ExactLeaves(seg, now);
        FoundInReach(slots, head, tail, seg, now, found, pos);
        AgreesIff(slots, head, tail, now, found, pos);
      }
    }

    lemma ExactLeaves(seg: int, now: u64)
      requires Built() && Window(head, tail) && head < tail
      requires seg >= 0 ==> FirstSeg(head) <= seg <= LastSeg(tail) && leaf[seg % LEAVES] <= now
      requires forall t :: FirstSeg(head) <= t <= LastSeg(tail) && (seg >= 0 ==> t < seg) ==> leaf[t % LEAVES] > now
      ensures IsFirstReady(slots, head, tail, now, seg)
    {
      forall t | FirstSeg(head) <= t <= LastSeg(tail)
        ensures leaf[t % LEAVES] == SegReady(slots, t, head, tail)
      {
        LiveLeaf(slots, head, tail, t);
      }
    }

    method ScanSegment(seg: nat, now: u64) returns (found: bool, pos: nat)
      modifies this`slotsInspected
      ensures IsFirstClaimable(slots, SegLo(seg, head), SegHi(seg, tail), now, found, pos)
      ensures slotsInspected <= old(slotsInspected) + SEG_SLOTS
    {
      var lo, hi := SegLo(seg, head), SegHi(seg, tail);
      SegWidth(seg, head, tail);
      pos := lo;
      while pos < hi
        invariant lo <= pos <= if lo < hi then hi else lo
        invariant forall p :: lo <= p < pos ==> !Claimable(slots, p, now)
        invariant slotsInspected <= old(slotsInspected) + (pos - lo)
      {
        if pos in slots {
          slotsInspected := slotsInspected + 1;
          if slots[pos].state == HELD || (slots[pos].state == CLAIMED && slots[pos].until <= now) {
            return true, pos;
          }
        }
        pos := pos + 1;
      }
      found := false;
    }
  }

  /** A tree built from the slots, a run of operations, and a scan: the answer the plain walk gives
      on the slots the run leaves. For a valid queue that ends before the wrapping segment, and a
      time that is not "never", there is no condition left. */
  method BuildRunScan(slots: Slots, head: nat, tail: nat, ops: seq<Op>, now: u64) returns (found: bool, pos: nat)
    requires Window(head, tail) && InWindow(ops, head, tail)
    ensures Guarded(slots, head, tail, ops) ==>
      (IsFirstClaimable(After(slots, ops), head, tail, now, found, pos)
       <==> Agrees(After(slots, ops), head, tail, now))
    ensures Clean(slots) && Mapped(slots, head, tail) && tail <= LIMIT && now < U64_MAX ==>
      IsFirstClaimable(After(slots, ops), head, tail, now, found, pos)
    ensures found ==> Due(slots, ops, pos, now)
    ensures forall p: nat :: LastOn(ops, p) == Some(OpClaim(p)) && now < 1_700_000_060_000 + p <= U64_MAX ==>
      !(found && pos == p)
  {
    DueThroughout(slots, ops, now);
    var t := new Tree(slots, head, tail);
    t.Build();
    t.Run(ops);
    found, pos := t.Scan(now);
    if Clean(slots) && Mapped(slots, head, tail) && tail <= LIMIT {
      ValidIsGuarded(slots, head, tail, ops);
      assert now < U64_MAX ==> Reach(head, tail, now) == tail;
    }
  }

  lemma DueThroughout(slots: Slots, ops: seq<Op>, now: u64)
    ensures forall p: nat :: Claimable(After(slots, ops), p, now) <==> Due(slots, ops, p, now)
  {
    forall p: nat ensures Claimable(After(slots, ops), p, now) <==> Due(slots, ops, p, now) {
      DueIff(slots, ops, p, now);
    }
  }

  /** The tree's answer held against the walk's. They differ exactly where the walk's answer lies
      beyond what a scan can see. */
  method Compare(slots: Slots, head: nat, tail: nat, ops: seq<Op>, now: u64) returns (same: bool)
    requires Window(head, tail) && InWindow(ops, head, tail)
    ensures Guarded(slots, head, tail, ops) ==> (same <==> Agrees(After(slots, ops), head, tail, now))
    ensures Clean(slots) && Mapped(slots, head, tail) && tail <= LIMIT && now < U64_MAX ==> same
  {
    var foundNaive, posNaive := NaiveScan(After(slots, ops), head, tail, now);
    var foundTree, posTree := BuildRunScan(slots, head, tail, ops, now);
    same := foundNaive == foundTree && (foundNaive ==> posNaive == posTree);
    assert same <==> IsFirstClaimable(After(slots, ops), head, tail, now, foundTree, posTree);
  }

  /** A slot no valid queue holds, free and with a deadline: acknowledging it leaves a leaf at
      zero for a segment in which nothing is left. */
  method StaleAckExample() returns (t: Tree)
    ensures t.Summed() && t.head == 0 && t.tail == 1 && t.slots == map[0 := Slot(ACKED, 0, 6)]
    ensures !t.Built() && t.leaf[0] == 0
  {
    t := new Tree(map[0 := Slot(HELD, 5, 0)], 0, 1);
    t.Build();
    OwnLeaf(t.slots, 0, 1, 0);
    t.Ack(0);
    OwnLeaf(t.slots, 0, 1, 0);
  }
}
