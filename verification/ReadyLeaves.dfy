/**
 What the ready-at tree has to hold: a minimum for every node, and for every live segment of
 the queue its readiness in one of 512 leaves, a ring indexed by the absolute segment number.
 The operations of a lease are given as what they do to the slots and to the leaves.
 */
module ReadyLeaves {
  import opened Bits
  import opened QueueSlots
  import opened Wrappers

  const LEAVES: nat := 512

  /** Where the last segment of the 64-bit positions starts. Its end wraps round to 46. */
  const LIMIT: nat := 0xFFFF_FFFF_FFFF_FFF0

  /** The deadline of a claim, before the position is added to it. */
  const FUTURE: nat := 1_700_000_000_000 + 60_000

  // Minima

  function Min(s: seq<u64>): (m: u64) {
    if |s| == 0 then U64_MAX else Least(Min(s[..|s| - 1]), s[|s| - 1])
  }

  lemma {:induction false} MinBelow(s: seq<u64>, i: nat)
    requires i < |s|
    ensures Min(s) <= s[i]
  {
    if i < |s| - 1 {
      MinBelow(s[..|s| - 1], i);
    }
  }

  lemma {:induction false} MinAttained(s: seq<u64>) returns (i: nat)
    requires |s| != 0
    ensures i < |s| && s[i] == Min(s)
  {
    if |s| == 1 {
      i := 0;
    } else {
      var j := MinAttained(s[..|s| - 1]);
      i := if s[j] < s[|s| - 1] then j else |s| - 1;
    }
  }

  lemma {:induction false} MinConcat(s: seq<u64>, t: seq<u64>)
    ensures Min(s + t) == Least(Min(s), Min(t))
  {
    if |t| == 0 {
      assert s + t == s;
    } else {
      assert (s + t)[..|s + t| - 1] == s + t[..|t| - 1];
      MinConcat(s, t[..|t| - 1]);
    }
  }

  /** Lowering one element lowers the minimum to it, or not at all. */
  lemma MinLowered(s: seq<u64>, i: nat, v: u64)
    requires i < |s| && v <= s[i]
    ensures Min(s[i := v]) == Least(Min(s), v)
  {
    var t := s[i := v];
    assert s == s[..i] + ([s[i]] + s[i + 1..]) && t == s[..i] + ([v] + s[i + 1..]);
    MinConcat(s[..i], [s[i]] + s[i + 1..]);
    MinConcat([s[i]], s[i + 1..]);
    MinConcat(s[..i], [v] + s[i + 1..]);
    MinConcat([v], s[i + 1..]);
    MinOne(s[i]);
    MinOne(v);
  }

  lemma MinOne(v: u64)
    ensures Min([v]) == v
  {
  }

  function Block(s: seq<u64>, i: nat): (b: seq<u64>)
    requires 8 * i + 8 <= |s|
  {
    s[8 * i..8 * i + 8]
  }

  /** The level above: the minimum of every eight. */
  function Parents(s: seq<u64>): (p: seq<u64>)
    requires |s| % 8 == 0
    ensures |p| == |s| / 8
  {
    seq(|s| / 8, i requires 0 <= i < |s| / 8 => Min(Block(s, i)))
  }

  /** A change below reaches exactly one node above. */
  lemma ParentsUpdate(s: seq<u64>, i: nat, v: u64)
    requires |s| % 8 == 0 && i < |s|
    ensures Parents(s[i := v]) == Parents(s)[i / 8 := Min(Block(s[i := v], i / 8))]
  {
    var t := s[i := v];
    forall k | 0 <= k < |s| / 8 && k != i / 8
      ensures Block(t, k) == Block(s, k)
    {
    }
  }

  /** A node covers everything below it. */
  lemma {:induction false} ParentsMin(s: seq<u64>, a: nat, b: nat)
    requires |s| % 8 == 0 && a <= b <= |s| / 8
    ensures Min(Parents(s)[a..b]) == Min(s[8 * a..8 * b])
    decreases b
  {
    if a < b {
      ParentsMin(s, a, b - 1);
      var p := Parents(s);
      assert p[a..b][..b - a - 1] == p[a..b - 1];
      assert s[8 * a..8 * b] == s[8 * a..8 * (b - 1)] + Block(s, b - 1);
      MinConcat(s[8 * a..8 * (b - 1)], Block(s, b - 1));
    }
  }

  lemma LoweredBlock(s: seq<u64>, k: nat, v: u64)
    requires |s| % 8 == 0 && k < |s| && v <= s[k]
    ensures Min(Block(s[k := v], k / 8)) == Least(Min(Block(s, k / 8)), v)
  {
    assert Block(s[k := v], k / 8) == Block(s, k / 8)[k % 8 := v];
    MinLowered(Block(s, k / 8), k % 8, v);
  }

  lemma GrandParents(s: seq<u64>, i: nat)
    requires |s| == LEAVES && i < 8
    ensures Parents(Parents(s))[i] == Min(s[64 * i..64 * i + 64])
  {
    ParentsMin(s, 8 * i, 8 * i + 8);
    assert Parents(s)[8 * i..8 * i + 8] == Block(Parents(s), i);
  }

  lemma GreatGrandParents(s: seq<u64>)
    requires |s| == LEAVES
    ensures Min(Parents(Parents(s))) == Min(s[0..LEAVES])
  {
    var t := Parents(s);
    ParentsMin(t, 0, 8);
    ParentsMin(s, 0, 64);
    assert Parents(t)[0..8] == Parents(t) && t[0..64] == t;
  }

  // Which segment a leaf stands for

  function FirstSeg(head: nat): (s: nat) {
    head / SEG_SLOTS
  }

  function LastSeg(tail: nat): (s: nat)
    requires tail > 0
  {
    (tail - 1) / SEG_SLOTS
  }

  /** A window of 64-bit positions with at most one live segment for each leaf. */
  predicate Window(head: nat, tail: nat) {
    head <= tail <= U64_MAX && (head < tail ==> LastSeg(tail) - FirstSeg(head) < LEAVES)
  }

  /** The only segment at or after the head's that can sit at leaf k. */
  function SegAt(head: nat, k: nat): (seg: nat)
    requires k < LEAVES
    ensures seg % LEAVES == k && FirstSeg(head) <= seg < FirstSeg(head) + LEAVES
  {
    var f := FirstSeg(head);
    if k >= f % LEAVES then f + (k - f % LEAVES) else f + (LEAVES + k - f % LEAVES)
  }

  function LeafValue(slots: Slots, head: nat, tail: nat, k: nat): (v: u64)
    requires k < LEAVES
  {
    if head < tail && SegAt(head, k) <= LastSeg(tail) then SegReady(slots, SegAt(head, k), head, tail) else U64_MAX
  }

  function LeavesOf(slots: Slots, head: nat, tail: nat): (s: seq<u64>)
    ensures |s| == LEAVES
  {
    seq(LEAVES, k requires 0 <= k < LEAVES => LeafValue(slots, head, tail, k))
  }

  lemma SegAtUnique(head: nat, seg: nat)
    requires FirstSeg(head) <= seg < FirstSeg(head) + LEAVES
    ensures SegAt(head, seg % LEAVES) == seg
  {
  }

  // The ring

  ghost predicate InRing(a: nat, b: nat, i: nat) {
    if a <= b then a <= i <= b else i >= a || i <= b
  }

  /** Leaf i comes before leaf k when the ring starts at a. */
  ghost predicate Before(a: nat, i: nat, k: nat) {
    if i >= a && k >= a then i < k else if i < a && k < a then i < k else i >= a
  }

  lemma LiveInRing(first: nat, last: nat, t: nat)
    requires first <= t <= last < first + LEAVES
    ensures InRing(first % LEAVES, last % LEAVES, t % LEAVES)
  {
    RingStep(first, t - first);
    RingStep(first, last - first);
  }

  lemma RingOrder(first: nat, t: nat, k: nat)
    requires k < LEAVES && first <= t < first + (k - first % LEAVES) % LEAVES
    ensures Before(first % LEAVES, t % LEAVES, k)
  {
  }

  lemma RingSegment(first: nat, last: nat, k: nat)
    requires k < LEAVES && first <= last < first + LEAVES
    requires InRing(first % LEAVES, last % LEAVES, k)
    ensures first + (k - first % LEAVES) % LEAVES <= last
    ensures (first + (k - first % LEAVES) % LEAVES) % LEAVES == k
  {
    var f, q := first % LEAVES, first / LEAVES;
    var d := if k >= f then k - f else k - f + LEAVES;
    assert first == LEAVES * q + f;
    assert (k - f) % LEAVES == d;
    RingStep(first, last - first);
    RingStep(first, d);
  }

  lemma RingStep(first: nat, d: nat)
    requires d < LEAVES
    ensures (first + d) % LEAVES
      == first % LEAVES + d - if first % LEAVES + d < LEAVES then 0 else LEAVES
  {
  }

  // Live segments

  lemma OwnSegment(head: nat, tail: nat, pos: nat)
    requires Window(head, tail) && head <= pos < tail
    ensures FirstSeg(head) <= pos / SEG_SLOTS <= LastSeg(tail) < FirstSeg(head) + LEAVES
  {
  }

  lemma LiveLeaf(slots: Slots, head: nat, tail: nat, t: nat)
    requires Window(head, tail) && head < tail && FirstSeg(head) <= t <= LastSeg(tail)
    ensures LeavesOf(slots, head, tail)[t % LEAVES] == SegReady(slots, t, head, tail)
    ensures InRing(FirstSeg(head) % LEAVES, LastSeg(tail) % LEAVES, t % LEAVES)
  {
    SegAtUnique(head, t);
    LiveInRing(FirstSeg(head), LastSeg(tail), t);
  }

  lemma InsideSegment(head: nat, tail: nat, pos: nat)
    requires Window(head, tail) && head <= pos < tail && pos < LIMIT
    ensures SegLo(pos / SEG_SLOTS, head) <= pos < SegHi(pos / SEG_SLOTS, tail) <= LIMIT
  {
  }

  /** The segment whose end wraps is taken for empty, whatever its slots hold. */
  lemma WrappedSegment(slots: Slots, head: nat, tail: nat, seg: nat)
    requires LIMIT <= seg * SEG_SLOTS <= U64_MAX && tail >= seg * SEG_SLOTS
    ensures SegHi(seg, tail) == 46 && SegReady(slots, seg, head, tail) == U64_MAX
  {
    assert Wrap64(seg * SEG_SLOTS + SEG_SLOTS) == 46;
  }

  lemma Beyond(slots: Slots, head: nat, tail: nat, pos: nat)
    requires Window(head, tail) && head <= pos < tail && pos >= LIMIT
    ensures SegReady(slots, pos / SEG_SLOTS, head, tail) == U64_MAX
  {
    WrappedSegment(slots, head, tail, pos / SEG_SLOTS);
  }

  // What a scan of the tree can see

  /** The end of what a scan looks at: the wrapping segment is never seen, and at the time that
      means "never" every segment seems ready, so that only the first one is read. */
  function Reach(head: nat, tail: nat, now: u64): (end: nat)
    ensures end <= tail
  {
    if now == U64_MAX && head < tail then SegHi(FirstSeg(head), tail)
    else if tail < LIMIT then tail
    else LIMIT
  }

  /** Something can be claimed within reach, or nothing can be claimed at all. */
  ghost predicate Agrees(slots: Slots, head: nat, tail: nat, now: u64) {
    || (exists p :: head <= p < Reach(head, tail, now) && Claimable(slots, p, now))
    || (forall p :: head <= p < tail ==> !Claimable(slots, p, now))
  }

  /** The first claimable position within reach is the first of the window exactly then. */
  lemma AgreesIff(slots: Slots, head: nat, tail: nat, now: u64, found: bool, pos: nat)
    requires IsFirstClaimable(slots, head, Reach(head, tail, now), now, found, pos)
    ensures IsFirstClaimable(slots, head, tail, now, found, pos) <==> Agrees(slots, head, tail, now)
  {
  }

  /** A message in the wrapping segment: the walk finds it, a scan of the tree does not. */
  lemma WrapExample()
    ensures
      var slots: Slots := map[LIMIT := Slot(HELD, 0, 0)];
      && Window(LIMIT, LIMIT + 1) && Claimable(slots, LIMIT, 0)
      && SegReady(slots, LIMIT / SEG_SLOTS, LIMIT, LIMIT + 1) == U64_MAX
      && !Agrees(slots, LIMIT, LIMIT + 1, 0)
  {
    var slots: Slots := map[LIMIT := Slot(HELD, 0, 0)];
    Beyond(slots, LIMIT, LIMIT + 1, LIMIT);
    assert Claimable(slots, LIMIT, 0);
  }

  /** A message in the second segment, asked for at the time that means "never". */
  lemma NeverExample()
    ensures Window(0, 63) && Claimable(map[62 := Slot(HELD, 0, 0)], 62, U64_MAX)
    ensures !Agrees(map[62 := Slot(HELD, 0, 0)], 0, 63, U64_MAX)
  {
    assert Reach(0, 63, U64_MAX) == 62;
    assert Claimable(map[62 := Slot(HELD, 0, 0)], 62, U64_MAX);
  }

  lemma FirstInWindow(slots: Slots, head: nat, tail: nat, seg: nat, now: u64, found: bool, pos: nat)
    requires Window(head, tail) && head < tail && FirstSeg(head) <= seg <= LastSeg(tail) && now < U64_MAX
    requires forall t :: FirstSeg(head) <= t < seg ==> SegReady(slots, t, head, tail) > now
    requires SegReady(slots, seg, head, tail) <= now
    requires IsFirstClaimable(slots, SegLo(seg, head), SegHi(seg, tail), now, found, pos)
    ensures IsFirstClaimable(slots, head, Reach(head, tail, now), now, found, pos)
  {
    NoneClaimable(slots, head, tail, seg, now);
    ReadyMeans(slots, SegLo(seg, head), SegHi(seg, tail), now);
    if seg * SEG_SLOTS >= LIMIT {
      WrappedSegment(slots, head, tail, seg);
    }
  }

  /** The first live segment that is ready, or none. */
  ghost predicate IsFirstReady(slots: Slots, head: nat, tail: nat, now: u64, seg: int)
    requires head < tail
  {
    && (seg >= 0 ==> FirstSeg(head) <= seg <= LastSeg(tail) && SegReady(slots, seg, head, tail) <= now)
    && (forall t :: FirstSeg(head) <= t <= LastSeg(tail) && (seg >= 0 ==> t < seg) ==>
          SegReady(slots, t, head, tail) > now)
  }

  lemma FoundInReach(slots: Slots, head: nat, tail: nat, seg: int, now: u64, found: bool, pos: nat)
    requires Window(head, tail) && head < tail && IsFirstReady(slots, head, tail, now, seg)
    requires if seg < 0 then !found
             else IsFirstClaimable(slots, SegLo(seg, head), SegHi(seg, tail), now, found, pos)
    ensures IsFirstClaimable(slots, head, Reach(head, tail, now), now, found, pos)
  {
    if now == U64_MAX {
      assert seg != FirstSeg(head) ==> SegReady(slots, FirstSeg(head), head, tail) > now;
    } else if seg < 0 {
      NoneClaimable(slots, head, tail, LastSeg(tail) + 1, now);
    } else {
      FirstInWindow(slots, head, tail, seg, now, found, pos);
    }
  }

  lemma NoneClaimable(slots: Slots, head: nat, tail: nat, seg: nat, now: u64)
    requires Window(head, tail) && head < tail && FirstSeg(head) <= seg <= LastSeg(tail) + 1
    requires forall t :: FirstSeg(head) <= t < seg ==> SegReady(slots, t, head, tail) > now
    ensures forall p :: head <= p < tail && p < LIMIT && p < seg * SEG_SLOTS ==> !Claimable(slots, p, now)
  {
    forall p | head <= p < tail && p < LIMIT && p < seg * SEG_SLOTS
      ensures !Claimable(slots, p, now)
    {
      var t := p / SEG_SLOTS;
      assert SegReady(slots, t, head, tail) > now;
      InsideSegment(head, tail, p);
      ReadyMeans(slots, SegLo(t, head), SegHi(t, tail), now);
    }
  }

  // The operations of a lease

  datatype Op = OpEnqueue(pos: nat) | OpClaim(pos: nat) | OpNack(pos: nat) | OpAck(pos: nat)

  function Stored(slots: Slots, pos: nat, s: Slot): Slots {
    if pos in slots then slots[pos := s] else slots
  }

  /** What an operation does to the slots, the tree aside. */
  function Effect(slots: Slots, op: Op): Slots {
    match op
    case OpEnqueue(pos) => Stored(slots, pos, Slot(HELD, 0, 0))
    case OpClaim(pos) => Stored(slots, pos, Slot(CLAIMED, Wrap64(FUTURE + pos), 5))
    case OpNack(pos) => Stored(slots, pos, Slot(HELD, 0, 9))
    case OpAck(pos) => Stored(slots, pos, Slot(ACKED, 0, 6))
  }

  function After(slots: Slots, ops: seq<Op>): Slots {
    if |ops| == 0 then slots else Effect(After(slots, ops[..|ops| - 1]), ops[|ops| - 1])
  }

  /** The token an operation leaves behind. */
  function Mark(op: Op): nat {
    if op.OpEnqueue? then 0 else if op.OpClaim? then 5 else if op.OpNack? then 9 else 6
  }

  /** A message that is enqueued or handed back can be claimed at every time, a claimed one from its
      deadline on, an acknowledged one never again. */
  lemma EffectMeans(slots: Slots, op: Op)
    ensures OthersKept(slots, Effect(slots, op), op.pos)
    ensures op.pos !in slots ==> Effect(slots, op) == slots
    ensures op.pos in slots && (op.OpEnqueue? || op.OpNack?) ==> ClaimableFrom(Effect(slots, op), op.pos, 0)
    ensures op.pos in slots && op.OpClaim? ==>
      ClaimableFrom(Effect(slots, op), op.pos, Wrap64(1_700_000_060_000 + op.pos))
    ensures op.pos in slots && op.OpAck? ==> NeverClaimable(Effect(slots, op), op.pos)
    ensures op.pos in slots ==> Effect(slots, op)[op.pos].token == Mark(op)
  {
  }

  /** The last operation of a run on a position. */
  function LastOn(ops: seq<Op>, p: nat): (r: Option<Op>)
    ensures r.Some? ==> r.value.pos == p
  {
    if |ops| == 0 then None
    else if ops[|ops| - 1].pos == p then Some(ops[|ops| - 1])
    else LastOn(ops[..|ops| - 1], p)
  }

  lemma {:induction false} LastOnIs(ops: seq<Op>, i: nat)
    requires i < |ops| && forall j :: i < j < |ops| ==> ops[j].pos != ops[i].pos
    ensures LastOn(ops, ops[i].pos) == Some(ops[i])
    decreases |ops|
  {
    if i < |ops| - 1 {
      LastOnIs(ops[..|ops| - 1], i);
    }
  }

  /** Whether a run leaves a position to be claimed, told from its last operation alone. */
  predicate Due(slots: Slots, ops: seq<Op>, p: nat, now: u64) {
    p in slots &&
    match LastOn(ops, p)
    case None => Claimable(slots, p, now)
    case Some(OpEnqueue(_)) => true
    case Some(OpNack(_)) => true
    case Some(OpClaim(_)) => now >= Wrap64(1_700_000_060_000 + p)
    case Some(OpAck(_)) => false
  }

  lemma {:induction false} DueIff(slots: Slots, ops: seq<Op>, p: nat, now: u64)
    ensures p in After(slots, ops) <==> p in slots
    ensures Claimable(After(slots, ops), p, now) <==> Due(slots, ops, p, now)
    decreases |ops|
  {
    if |ops| != 0 {
      var before := ops[..|ops| - 1];
      DueIff(slots, before, p, now);
      EffectMeans(After(slots, before), ops[|ops| - 1]);
    }
  }

  /** What an operation does to the leaves: a free message is taken for the floor of its segment
      at once, a claim has the segment read again, an acknowledgement only when the message
      held the segment's minimum. */
  function Kept(slots: Slots, leaves: seq<u64>, head: nat, tail: nat, op: Op): (r: seq<u64>)
    requires |leaves| == LEAVES
    ensures |r| == LEAVES
  {
    var seg := op.pos / SEG_SLOTS;
    var again := leaves[seg % LEAVES := SegReady(Effect(slots, op), seg, head, tail)];
    match op
    case OpEnqueue(_) => leaves[seg % LEAVES := 0]
    case OpNack(_) => leaves[seg % LEAVES := 0]
    case OpClaim(_) => again
    case OpAck(pos) => if Deadline(slots, pos) == leaves[seg % LEAVES] then again else leaves
  }

  function Deadline(slots: Slots, pos: nat): (d: u64) {
    if pos in slots then slots[pos].until else 0
  }

  function KeptAll(slots: Slots, leaves: seq<u64>, head: nat, tail: nat, ops: seq<Op>): (r: seq<u64>)
    requires |leaves| == LEAVES
    ensures |r| == LEAVES
  {
    if |ops| == 0 then leaves
    else
      var n := |ops| - 1;
      Kept(After(slots, ops[..n]), KeptAll(slots, leaves, head, tail, ops[..n]), head, tail, ops[n])
  }

  /** When the shortcut an operation takes is exact. */
  ghost predicate Guard(slots: Slots, head: nat, tail: nat, op: Op) {
    match op
    case OpEnqueue(pos) => FreeIsExact(slots, head, tail, pos)
    case OpNack(pos) => FreeIsExact(slots, head, tail, pos)
    case OpClaim(_) => true
    case OpAck(pos) => !AckGoesStale(slots, head, tail, pos)
  }

  /** There is a slot to free, in a segment that can be seen, or the segment was at zero. */
  ghost predicate FreeIsExact(slots: Slots, head: nat, tail: nat, pos: nat) {
    (pos in slots && pos < LIMIT) || SegReady(slots, pos / SEG_SLOTS, head, tail) == 0
  }

  /** The message is free, carries a deadline all the same, and nothing else keeps its segment
      at zero. */
  ghost predicate AckGoesStale(slots: Slots, head: nat, tail: nat, pos: nat) {
    var seg := pos / SEG_SLOTS;
    && pos < LIMIT && pos in slots && slots[pos].state == HELD && slots[pos].until != 0
    && ReadyWithout(slots, SegLo(seg, head), SegHi(seg, tail), pos) != 0
  }

  /** A free message carries no deadline, as the state table of a valid queue has it. */
  ghost predicate Clean(slots: Slots) {
    forall p :: p in slots && slots[p].state == HELD ==> slots[p].until == 0
  }

  /** Every live position has a slot: the address of a segment page is never null. */
  ghost predicate Mapped(slots: Slots, head: nat, tail: nat) {
    forall p :: head <= p < tail ==> p in slots
  }

  ghost predicate InWindow(ops: seq<Op>, head: nat, tail: nat) {
    forall i :: 0 <= i < |ops| ==> head <= ops[i].pos < tail
  }

  /** Every operation of the run meets its guard in the slots it finds. */
  ghost predicate Guarded(slots: Slots, head: nat, tail: nat, ops: seq<Op>)
    decreases |ops|
  {
    |ops| != 0 ==>
      var n := |ops| - 1;
      Guarded(slots, head, tail, ops[..n]) && Guard(After(slots, ops[..n]), head, tail, ops[n])
  }

  ghost predicate ExactAfter(slots: Slots, head: nat, tail: nat, ops: seq<Op>) {
    KeptAll(slots, LeavesOf(slots, head, tail), head, tail, ops) == LeavesOf(After(slots, ops), head, tail)
  }

  /** The leaves are exact after every one of the operations. */
  ghost predicate ExactThroughout(slots: Slots, head: nat, tail: nat, ops: seq<Op>)
    decreases |ops|
  {
    ExactAfter(slots, head, tail, ops) && (|ops| != 0 ==> ExactThroughout(slots, head, tail, ops[..|ops| - 1]))
  }

  /** The leaves of some slots, with the leaf of one segment taken from others. */
  function Relieved(slots: Slots, other: Slots, head: nat, tail: nat, seg: nat): (r: seq<u64>) {
    LeavesOf(slots, head, tail)[seg % LEAVES := SegReady(other, seg, head, tail)]
  }

  /** A change of one slot reaches one leaf. */
  lemma LeavesChanged(slots: Slots, head: nat, tail: nat, pos: nat, s: Slot)
    requires Window(head, tail) && head <= pos < tail
    ensures LeavesOf(slots[pos := s], head, tail) == Relieved(slots, slots[pos := s], head, tail, pos / SEG_SLOTS)
  {
    var seg := pos / SEG_SLOTS;
    SegAtUnique(head, seg);
    forall k | 0 <= k < LEAVES && k != seg % LEAVES
      ensures LeafValue(slots[pos := s], head, tail, k) == LeafValue(slots, head, tail, k)
    {
      var t := SegAt(head, k);
      if t <= LastSeg(tail) {
        OutsideSegment(head, tail, pos, t);
        ReadyChanged(slots, SegLo(t, head), SegHi(t, tail), pos, s);
      }
    }
  }

  lemma OutsideSegment(head: nat, tail: nat, pos: nat, t: nat)
    requires Window(head, tail) && head <= pos < tail && t <= LastSeg(tail) && t != pos / SEG_SLOTS
    ensures !(SegLo(t, head) <= pos < SegHi(t, tail))
  {
  }

  /** The leaf of a live position holds the readiness of its segment. */
  lemma OwnLeaf(slots: Slots, head: nat, tail: nat, pos: nat)
    requires Window(head, tail) && head <= pos < tail
    ensures LeavesOf(slots, head, tail)[(pos / SEG_SLOTS) % LEAVES] == SegReady(slots, pos / SEG_SLOTS, head, tail)
  {
    OwnSegment(head, tail, pos);
    SegAtUnique(head, pos / SEG_SLOTS);
  }

  /** Storing a slot, where there is one, reaches one leaf. */
  lemma StoredLeaves(slots: Slots, head: nat, tail: nat, pos: nat, s: Slot)
    requires Window(head, tail) && head <= pos < tail
    ensures LeavesOf(Stored(slots, pos, s), head, tail)
      == Relieved(slots, Stored(slots, pos, s), head, tail, pos / SEG_SLOTS)
  {
    if pos in slots {
      LeavesChanged(slots, head, tail, pos, s);
    } else {
      OwnLeaf(slots, head, tail, pos);
      SameLeaf(LeavesOf(slots, head, tail), (pos / SEG_SLOTS) % LEAVES);
    }
  }

  lemma SameLeaf(a: seq<u64>, k: nat)
    requires k < |a|
    ensures a[k := a[k]] == a
  {
  }

  lemma OneLeaf(a: seq<u64>, k: nat, x: u64, y: u64)
    requires k < |a|
    ensures a[k := x] == a[k := y] <==> x == y
    ensures a[k] == x ==> a[k := x] == a
  {
    assert a[k := x][k] == x && a[k := y][k] == y;
    SameLeaf(a, k);
  }

  lemma FreedReady(slots: Slots, head: nat, tail: nat, pos: nat, token: nat)
    requires Window(head, tail) && head <= pos < tail
    ensures SegReady(Stored(slots, pos, Slot(HELD, 0, token)), pos / SEG_SLOTS, head, tail) == 0
      <==> FreeIsExact(slots, head, tail, pos)
  {
    var seg, s := pos / SEG_SLOTS, Slot(HELD, 0, token);
    if pos < LIMIT {
      InsideSegment(head, tail, pos);
      ReadyChanged(slots, SegLo(seg, head), SegHi(seg, tail), pos, s);
    } else {
      Beyond(slots, head, tail, pos);
      Beyond(Stored(slots, pos, s), head, tail, pos);
    }
  }

  /** Acknowledging a message whose deadline is not its segment's readiness leaves that
      readiness alone, but for the free message with a deadline. */
  lemma AckedReady(slots: Slots, head: nat, tail: nat, pos: nat)
    requires Window(head, tail) && head <= pos < tail
    ensures Deadline(slots, pos) == SegReady(slots, pos / SEG_SLOTS, head, tail) ==>
      !AckGoesStale(slots, head, tail, pos)
    ensures Deadline(slots, pos) != SegReady(slots, pos / SEG_SLOTS, head, tail) ==>
      (SegReady(Effect(slots, OpAck(pos)), pos / SEG_SLOTS, head, tail) == SegReady(slots, pos / SEG_SLOTS, head, tail)
       <==> !AckGoesStale(slots, head, tail, pos))
  {
    var seg, s := pos / SEG_SLOTS, Slot(ACKED, 0, 6);
    if pos < LIMIT {
      InsideSegment(head, tail, pos);
      ReadyChanged(slots, SegLo(seg, head), SegHi(seg, tail), pos, s);
      ReadyAround(slots, SegLo(seg, head), SegHi(seg, tail), pos);
    } else {
      Beyond(slots, head, tail, pos);
      Beyond(Stored(slots, pos, s), head, tail, pos);
    }
  }

  /** One operation on exact leaves keeps them exact if and only if its guard holds. */
  lemma StepExactIff(slots: Slots, head: nat, tail: nat, op: Op)
    requires Window(head, tail) && head <= op.pos < tail
    ensures Kept(slots, LeavesOf(slots, head, tail), head, tail, op) == LeavesOf(Effect(slots, op), head, tail)
      <==> Guard(slots, head, tail, op)
  {
    var seg, now := op.pos / SEG_SLOTS, SegReady(Effect(slots, op), op.pos / SEG_SLOTS, head, tail);
    EffectLeaves(slots, head, tail, op);
    OwnLeaf(slots, head, tail, op.pos);
    match op
    case OpEnqueue(pos) =>
      FreedReady(slots, head, tail, pos, 0);
      OneLeaf(LeavesOf(slots, head, tail), seg % LEAVES, 0, now);
    case OpNack(pos) =>
      FreedReady(slots, head, tail, pos, 9);
      OneLeaf(LeavesOf(slots, head, tail), seg % LEAVES, 0, now);
    case OpClaim(_) =>
    case OpAck(pos) =>
      AckedReady(slots, head, tail, pos);
      OneLeaf(LeavesOf(slots, head, tail), seg % LEAVES, SegReady(slots, seg, head, tail), now);
  }

  lemma EffectLeaves(slots: Slots, head: nat, tail: nat, op: Op)
    requires Window(head, tail) && head <= op.pos < tail
    ensures LeavesOf(Effect(slots, op), head, tail)
      == Relieved(slots, Effect(slots, op), head, tail, op.pos / SEG_SLOTS)
  {
    match op
    case OpEnqueue(pos) => StoredLeaves(slots, head, tail, pos, Slot(HELD, 0, 0));
    case OpClaim(pos) => StoredLeaves(slots, head, tail, pos, Slot(CLAIMED, Wrap64(FUTURE + pos), 5));
    case OpNack(pos) => StoredLeaves(slots, head, tail, pos, Slot(HELD, 0, 9));
    case OpAck(pos) => StoredLeaves(slots, head, tail, pos, Slot(ACKED, 0, 6));
  }

  lemma NextExactIff(slots: Slots, head: nat, tail: nat, ops: seq<Op>)
    requires Window(head, tail) && InWindow(ops, head, tail) && |ops| != 0
    requires ExactAfter(slots, head, tail, ops[..|ops| - 1])
    ensures ExactAfter(slots, head, tail, ops)
      <==> Guard(After(slots, ops[..|ops| - 1]), head, tail, ops[|ops| - 1])
  {
    StepExactIff(After(slots, ops[..|ops| - 1]), head, tail, ops[|ops| - 1]);
  }

  /** Leaves that start exact stay exact through a run, after every one of its operations, if and
      only if every operation's guard holds of the slots it finds. */
  lemma {:induction false} RunExactIff(slots: Slots, head: nat, tail: nat, ops: seq<Op>)
    requires Window(head, tail) && InWindow(ops, head, tail)
    ensures ExactThroughout(slots, head, tail, ops) <==> Guarded(slots, head, tail, ops)
    decreases |ops|
  {
    if |ops| != 0 {
      RunExactIff(slots, head, tail, ops[..|ops| - 1]);
      if ExactAfter(slots, head, tail, ops[..|ops| - 1]) {
        NextExactIff(slots, head, tail, ops);
      }
    }
  }

  lemma ValidStep(slots: Slots, head: nat, tail: nat, op: Op)
    requires head <= op.pos < tail <= LIMIT && Clean(slots) && Mapped(slots, head, tail)
    ensures Guard(slots, head, tail, op)
    ensures Clean(Effect(slots, op)) && Mapped(Effect(slots, op), head, tail)
  {
  }

  /** A valid queue that ends before the wrapping segment meets every guard. */
  lemma {:induction false} ValidIsGuarded(slots: Slots, head: nat, tail: nat, ops: seq<Op>)
    requires InWindow(ops, head, tail) && tail <= LIMIT && Clean(slots) && Mapped(slots, head, tail)
    ensures Guarded(slots, head, tail, ops)
    ensures Clean(After(slots, ops)) && Mapped(After(slots, ops), head, tail)
    decreases |ops|
  {
    if |ops| != 0 {
      ValidIsGuarded(slots, head, tail, ops[..|ops| - 1]);
      ValidStep(After(slots, ops[..|ops| - 1]), head, tail, ops[|ops| - 1]);
    }
  }
}
