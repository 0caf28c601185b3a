/**
 The shape of a search for the leftmost ready leaf of a range, and what it may cost: how a
 range cuts a node decides how many nodes of each level the search can look below.
 */
module ReadySearch {
  import opened Bits
  import opened QueueSlots
  import opened ReadyLeaves

  function Count(level: nat): (n: nat)
    requires level <= 3
  {
    if level == 0 then 1 else if level == 1 then 8 else if level == 2 then 64 else 512
  }

  /** `1 << (3 * (3 - level))`: how many leaves a node covers. */
  function Span(level: nat): (n: nat)
    requires level <= 3
  {
    if level == 0 then 512 else if level == 1 then 64 else if level == 2 then 8 else 1
  }

  ghost predicate Meets(level: nat, idx: nat, lo: nat, hi: nat)
    requires level <= 3
  {
    idx * Span(level) <= hi && lo <= idx * Span(level) + Span(level) - 1
  }

  ghost function From(level: nat, idx: nat, lo: nat): nat
    requires level <= 3
  {
    if idx * Span(level) < lo then lo else idx * Span(level)
  }

  ghost function To(level: nat, idx: nat, hi: nat): nat
    requires level <= 3
  {
    if hi + 1 < idx * Span(level) + Span(level) then hi + 1 else idx * Span(level) + Span(level)
  }

  /** The first index of [a, b) whose value is at most `now`, or -1. */
  ghost predicate Leftmost(s: seq<u64>, a: nat, b: nat, now: u64, r: int) {
    && b <= |s|
    && (r >= 0 ==> a <= r < b && s[r] <= now)
    && r >= -1
    && (forall i :: a <= i < b && (r >= 0 ==> i < r) ==> s[i] > now)
  }

  ghost predicate LeftCut(level: nat, idx: nat, lo: nat)
    requires level <= 3
  {
    idx * Span(level) < lo
  }

  ghost predicate RightCut(level: nat, idx: nat, hi: nat)
    requires level <= 3
  {
    hi < idx * Span(level) + Span(level) - 1
  }

  /** How many nodes per level a search of this node may look below. */
  ghost function Width(level: nat, idx: nat, lo: nat, hi: nat, r: int): nat
    requires level <= 3
  {
    if LeftCut(level, idx, lo) && (RightCut(level, idx, hi) || r >= 0) then 2 else 1
  }

  /** Summary nodes read below a node of the given width. */
  ghost function Below(level: nat, width: nat): nat {
    if level == 0 then (if width == 1 then 16 else 24) else if level == 1 then 8 else 0
  }

  ghost function LeafReads(level: nat, width: nat): nat {
    if level >= 3 then 0 else if level == 2 || width == 1 then 8 else 16
  }

  ghost predicate Cost(level: nat, meets: bool, ready: bool, width: nat, summary: int, leaves: int) {
    if !meets then summary == 0 && leaves == 0
    else if level >= 3 then summary == 0 && leaves == 1
    else if !ready then summary == 1 && leaves == 0
    else 0 <= summary <= 1 + Below(level, width) && 0 <= leaves <= LeafReads(level, width)
  }

  /** What the first c children may have cost without answering: only a child that [lo, hi]
      cuts can be ready and still have nothing to offer. */
  ghost function Failed(level: nat, idx: nat, lo: nat, hi: nat, c: nat, leaves: bool): nat
    requires level < 3
  {
    var one := if leaves then LeafReads(level + 1, 1) else Below(level + 1, 1);
    var two := if leaves then LeafReads(level + 1, 2) else Below(level + 1, 2);
    var left := LeftCut(level, idx, lo) && lo / Span(level + 1) < 8 * idx + c;
    var right := RightCut(level, idx, hi) && hi / Span(level + 1) < 8 * idx + c;
    if left && right then (if lo / Span(level + 1) == hi / Span(level + 1) then two else 2 * one)
    else if left || right then one
    else 0
  }

  lemma NoneReady(s: seq<u64>, a: nat, b: nat, now: u64)
    requires a <= b <= |s| && Min(s[a..b]) > now
    ensures forall i :: a <= i < b ==> s[i] > now
  {
    forall i | a <= i < b
      ensures s[i] > now
    {
      MinBelow(s[a..b], i - a);
    }
  }

  lemma SuccessCost(level: nat, idx: nat, lo: nat, hi: nat, c: nat, r: int)
    requires level < 3 && idx < Count(level) && lo <= hi < LEAVES && c < 8 && r >= 0
    requires Meets(level + 1, 8 * idx + c, lo, hi)
    ensures level < 2 ==>
      Failed(level, idx, lo, hi, c, false) + c + 1 + Below(level + 1, Width(level + 1, 8 * idx + c, lo, hi, r))
      <= Below(level, Width(level, idx, lo, hi, r))
    ensures level < 2 ==>
      Failed(level, idx, lo, hi, c, true) + LeafReads(level + 1, Width(level + 1, 8 * idx + c, lo, hi, r))
      <= LeafReads(level, Width(level, idx, lo, hi, r))
    ensures level == 2 ==> Failed(level, idx, lo, hi, c, false) == Failed(level, idx, lo, hi, c, true) == 0
  {
  }

  /** A child that failed although it was ready is cut by lo or by hi. */
  lemma FailureCost(level: nat, idx: nat, lo: nat, hi: nat, c: nat, now: u64, s: seq<u64>, v: u64)
    requires level < 3 && idx < Count(level) && lo <= hi < LEAVES && c < 8 && |s| == LEAVES
    requires v == Min(s[(8 * idx + c) * Span(level + 1)..(8 * idx + c + 1) * Span(level + 1)])
    requires Leftmost(s, From(level + 1, 8 * idx + c, lo), To(level + 1, 8 * idx + c, hi), now, -1)
    ensures Failed(level, idx, lo, hi, c, false) <= Failed(level, idx, lo, hi, c + 1, false)
    ensures Failed(level, idx, lo, hi, c, true) <= Failed(level, idx, lo, hi, c + 1, true)
    ensures level < 2 && Meets(level + 1, 8 * idx + c, lo, hi) && v <= now ==>
      && Failed(level, idx, lo, hi, c, false) + Below(level + 1, Width(level + 1, 8 * idx + c, lo, hi, -1))
         <= Failed(level, idx, lo, hi, c + 1, false)
      && Failed(level, idx, lo, hi, c, true) + LeafReads(level + 1, Width(level + 1, 8 * idx + c, lo, hi, -1))
         <= Failed(level, idx, lo, hi, c + 1, true)
  {
    var child := 8 * idx + c;
    if level < 2 && Meets(level + 1, child, lo, hi) && v <= now {
      var span := Span(level + 1);
      var k := MinAttained(s[child * span..(child + 1) * span]);
      assert s[child * span + k] <= now;
      assert LeftCut(level + 1, child, lo) || RightCut(level + 1, child, hi);
    }
  }

  lemma AllFailed(level: nat, idx: nat, lo: nat, hi: nat)
    requires level < 3 && idx < Count(level) && lo <= hi < LEAVES && Meets(level, idx, lo, hi)
    ensures (if level < 2 then 8 else 0) + Failed(level, idx, lo, hi, 8, false)
      <= Below(level, Width(level, idx, lo, hi, -1))
    ensures (if level < 2 then 0 else 8) + Failed(level, idx, lo, hi, 8, true)
      <= LeafReads(level, Width(level, idx, lo, hi, -1))
  {
  }
}
