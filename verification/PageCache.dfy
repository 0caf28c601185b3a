/**
 The set-associative plaintext cache of the encrypted I/O spike: eight ways to a set, a clock
 hand for each set, pages read from the file and put through a keystream on a miss. A request
 served by the cache gives the bytes an uncached read would have given.
 */
module PageCache {
  import opened Bits
  import opened ClockHand
  import opened Wrappers

  const WAYS: nat := 8
  const WORDS: nat := 512
  const GOLDEN: nat := 0x9E37_79B9_7F4A_7C15
  const SEED: nat := 0x1234_5678_9123_4567

  /** A page as the 64-bit words the transform works on. */
  type Content = p: seq<u64> | |p| == WORDS witness seq(512, i => 0)

  // The transform

  function Xor64(a: u64, b: u64): (r: u64) {
    Pow2At64();
    XorBound(a, b, 64);
    Xor(a, b)
  }

  /** One step of the xorshift keystream. */
  function NextKey(k: u64): (r: u64) {
    var k1 := Xor64(k, Wrap64(k * 0x2000));
    var k2 := Xor64(k1, k1 / 0x80);
    Xor64(k2, Wrap64(k2 * 0x2_0000))
  }

  function KeyAt(next: u64 -> u64, start: u64, i: nat): u64 {
    if i == 0 then start else next(KeyAt(next, start, i - 1))
  }

  /** Word i of a page meets the key after i + 1 steps. */
  function Keyed(op: (u64, u64) -> u64, next: u64 -> u64, start: u64, page: Content): (r: Content) {
    seq(WORDS, i requires 0 <= i < WORDS => op(page[i], KeyAt(next, start, i + 1)))
  }

  function Start(pageNo: nat): (k: u64) {
    Wrap64(Wrap64(pageNo * GOLDEN) + SEED)
  }

  function Transformed(page: Content, pageNo: nat): (r: Content) {
    Keyed(Xor64, NextKey, Start(pageNo), page)
  }

  method KeyWords(op: (u64, u64) -> u64, next: u64 -> u64, start: u64, page: Content) returns (r: Content)
    ensures r == Keyed(op, next, start, page)
  {
    var k := start;
    r := page;
    for i := 0 to WORDS
      invariant k == KeyAt(next, start, i)
      invariant forall j :: 0 <= j < i ==> r[j] == op(page[j], KeyAt(next, start, j + 1))
      invariant forall j :: i <= j < WORDS ==> r[j] == page[j]
    {
      k := next(k);
      r := r[i := op(r[i], k)];
    }
  }

  /** `transform`. */
  method Transform(page: Content, pageNo: nat) returns (r: Content)
    ensures r == Transformed(page, pageNo)
  {
    r := KeyWords(Xor64, NextKey, Start(pageNo), page);
  }

  /** The transform undoes itself. */
  lemma TransformTwice(page: Content, pageNo: nat)
    ensures Transformed(Transformed(page, pageNo), pageNo) == page
  {
    forall a: u64, b: u64 ensures Xor64(Xor64(a, b), b) == a {
      XorInverse(a, b);
    }
    KeyedTwice(Xor64, NextKey, Start(pageNo), page);
  }

  lemma KeyedTwice(op: (u64, u64) -> u64, next: u64 -> u64, start: u64, page: Content)
    requires forall a, b :: op(op(a, b), b) == a
    ensures Keyed(op, next, start, Keyed(op, next, start, page)) == page
  {
    var once := Keyed(op, next, start, page);
    forall i | 0 <= i < WORDS ensures Keyed(op, next, start, once)[i] == page[i] {
      assert once[i] == op(page[i], KeyAt(next, start, i + 1));
    }
  }

  // The file

  /** A page read: the offset is a 64-bit product that the system takes as a signed number. */
  function ReadPage(file: seq<Content>, pageNo: nat): (r: Option<Content>) {
    var k := pageNo % 0x10_0000_0000_0000;
    if k < |file| && k < 0x8_0000_0000_0000 then Some(file[k]) else None
  }

  /** What an uncached reader gets. */
  function Fetch(file: seq<Content>, pageNo: nat, transform: bool): (r: Option<Content>) {
    var p := ReadPage(file, pageNo);
    if p.Some? && transform then Some(Transformed(p.value, pageNo)) else p
  }

  /** An uncached reader of the file. */
  ghost predicate Reads(fetch: nat -> Option<Content>, file: seq<Content>, transform: bool) {
    forall n: nat {:trigger ReadPage(file, n)} :: fetch(n) == Fetch(file, n, transform)
  }

  // Sets

  function SetOf(pageNo: nat, sets: nat): (set_: nat)
    requires sets > 0
    ensures set_ < sets
  {
    Wrap64(pageNo * GOLDEN) / 0x2_0000_0000 % sets
  }

  /** The shift and the mask of the source. */
  method SetIndex(pageNo: nat, sets: nat, ghost log: nat) returns (set_: nat)
    requires sets == Pow2(log)
    ensures set_ == SetOf(pageNo, sets)
  {
    set_ := MaskLow(Wrap64(pageNo * GOLDEN) / 0x2_0000_0000, sets - 1, log);
  }

  function Wanted(slots: u32): (want: nat)
    ensures want >= 1
  {
    if slots / WAYS != 0 then slots / WAYS else 1
  }

  /** The geometry `cache_init` computes in 32-bit arithmetic: the least power of two of sets
      that is enough, and a slot count that is right exactly while the product fits. */
  method Geometry(slots: u32) returns (sets: nat, count: nat, ghost log: nat)
    ensures sets == Pow2(log) && Wanted(slots) <= sets && (log > 0 ==> Pow2(log - 1) < Wanted(slots))
    ensures count == Wrap32(sets * WAYS)
    ensures count == sets * WAYS <==> slots / WAYS <= 0x1000_0000
    ensures slots / WAYS > 0x1000_0000 ==> sets == 0x2000_0000 && count == 0
  {
    var want := if slots / WAYS != 0 then slots / WAYS else 1;
    sets, log := 1, 0;
    Pow2Values();
    while sets < want
      invariant sets == Pow2(log) && (log > 0 ==> Pow2(log - 1) < want)
      invariant sets < 2 * want
      decreases 2 * want - sets
    {
      sets := Wrap32(2 * sets);
      log := log + 1;
    }
    PowerGap(log);
    count := Wrap32(sets * WAYS);
    if slots / WAYS > 0x1000_0000 {
      TooMany(slots, log);
    }
  }

  lemma PowerGap(log: nat)
    ensures Pow2(log) <= 0x1000_0000 || Pow2(log) >= 0x2000_0000
  {
    Pow2Values();
    if log <= 28 {
      Pow2Monotone(log, 28);
    } else {
      Pow2Monotone(29, log);
    }
  }

  /** Above 2^28 sets the power of two is 2^29, and eight times that is 2^32. */
  lemma TooMany(slots: u32, log: nat)
    requires slots / WAYS > 0x1000_0000
    requires Wanted(slots) <= Pow2(log) && (log > 0 ==> Pow2(log - 1) < Wanted(slots))
    ensures Pow2(log) == 0x2000_0000
  {
    Pow2Values();
    if log < 29 {
      Pow2Monotone(log, 28);
    } else if log > 29 {
      Pow2Monotone(29, log - 1);
    }
  }

  method TooManyExample() returns (sets: nat, count: nat)
    ensures sets == 0x2000_0000 && count == 0
  {
    ghost var log;
    sets, count, log := Geometry(0xFFFF_FFFF);
  }

  class Cache {
    const tags: array<nat>
    const slots: array<Content>
    const refbit: array<bool>
    const hand: array<nat>
    const sets: nat
    ghost const log: nat
    ghost const home: nat -> nat
    var hits: nat
    var misses: nat

    /** The arrays have the shape `cache_init` gives them. */
    ghost predicate Shaped() {
      && sets == Pow2(log) && tags.Length == slots.Length == refbit.Length == WAYS * sets && hand.Length == sets
      && tags != hand && sets > 0 && forall n {:trigger SetOf(n, sets)} :: home(n) == SetOf(n, sets)
    }

    ghost predicate HandsIn()
      reads hand
    {
      forall s :: 0 <= s < hand.Length ==> hand[s] < WAYS
    }

    /** A page is only in its own set. */
    ghost predicate Homed()
      requires Shaped()
      reads tags
    {
      forall i :: 0 <= i < tags.Length && tags[i] != 0 ==> tags[i] <= U64_MAX && home(tags[i] - 1) == i / WAYS
    }

    /** A page is in at most one slot. */
    ghost predicate Unique()
      reads tags
    {
      forall i, j :: 0 <= i < j < tags.Length && tags[i] == tags[j] ==> tags[i] == 0
    }

    /** A slot with a tag holds what an uncached reader would get for that page. */
    ghost predicate Faithful(fetch: nat -> Option<Content>)
      requires Shaped()
      reads tags, slots
    {
      forall i :: 0 <= i < tags.Length && tags[i] != 0 ==> fetch(tags[i] - 1) == Some(slots[i])
    }

    ghost predicate Valid()
      reads tags, hand
    {
      Shaped() && HandsIn() && Homed() && Unique()
    }

    /** A cache that can be used, if and only if the slots it asks for can be counted in 32
        bits. Otherwise it has no slots at all. */
    constructor (slotCount: u32)
      ensures slotCount / WAYS <= 0x1000_0000 ==> Valid()
      ensures slotCount / WAYS > 0x1000_0000 ==> !Shaped() && tags.Length == 0 && sets == 0x2000_0000
      ensures sets == Pow2(log) && Wanted(slotCount) <= sets && (log > 0 ==> Pow2(log - 1) < Wanted(slotCount))
      ensures fresh(tags) && fresh(slots) && fresh(refbit) && fresh(hand)
      ensures forall i :: 0 <= i < tags.Length ==> tags[i] == 0
      ensures forall i :: 0 <= i < hand.Length ==> hand[i] == 0
      ensures hits == misses == 0
    {
      var n, count, l := Geometry(slotCount);
      var zero: Content := seq(WORDS, i => 0);
      sets, log, home := n, l, pageNo => if n > 0 then SetOf(pageNo, n) else 0;
      tags := new nat[count](_ => 0);
      refbit := new bool[count](_ => false);
      hand := new nat[n](_ => 0);
      slots := new Content[count](_ => zero);
      hits, misses := 0, 0;
    }

    /** `cache_reset`. */
    method Reset()
      requires Shaped()
      modifies this, tags, refbit, hand
      ensures Valid() && hits == misses == 0
      ensures forall i :: 0 <= i < tags.Length ==> tags[i] == 0
      ensures forall fetch :: Faithful(fetch)
    {
      for i := 0 to tags.Length
        invariant forall j :: 0 <= j < i ==> tags[j] == 0
      {
        tags[i] := 0;
        refbit[i] := false;
      }
      for s := 0 to sets
        invariant forall j :: 0 <= j < s ==> hand[j] == 0
        invariant forall j :: 0 <= j < tags.Length ==> tags[j] == 0
      {
        hand[s] := 0;
      }
      hits, misses := 0, 0;
    }

    /** Look for a tag in the ways of a set. */
    method Lookup(base: nat, want: nat) returns (w: nat)
      requires base + WAYS <= tags.Length
      ensures w <= WAYS && (w < WAYS ==> tags[base + w] == want)
      ensures forall i :: base <= i < base + w ==> tags[i] != want
    {
      w := 0;
      while w < WAYS && tags[base + w] != want
        invariant w <= WAYS && forall i :: base <= i < base + w ==> tags[i] != want
      {
        w := w + 1;
      }
    }

    /** The clock: the first slot from the hand on that is empty or unreferenced, clearing the
        reference bits it passes. It looks at no more than WAYS + 1 slots, and comes back to
        the first one it passed when it finds none. */
    method Evict(set_: nat) returns (w: nat, looked: nat)
      requires tags.Length == refbit.Length && tags != hand && HandsIn()
      requires set_ < hand.Length && WAYS * set_ + WAYS <= tags.Length
      modifies refbit, hand
      ensures HandsIn() && w < WAYS && 1 <= looked <= WAYS + 1
      ensures Ahead(old(hand[set_]), w, WAYS) == if looked <= WAYS then looked - 1 else 0
      ensures looked <= WAYS ==> tags[WAYS * set_ + w] == 0 || !old(refbit[WAYS * set_ + w])
      ensures Passed(tags[..], old(refbit[..]), refbit[..], set_, old(hand[set_]), looked - 1)
      ensures hand[..] == old(hand[..])[set_ := (w + 1) % WAYS]
      ensures tags[WAYS * set_ + old(hand[set_])] == 0 ==> w == old(hand[set_])
    {
      ghost var h, was, hands := hand[set_], refbit[..], hand[..];
      looked := 0;
      w := hand[set_];
      while true
        invariant looked <= WAYS && w < WAYS && hand[..] == hands[set_ := w]
        invariant Ahead(h, w, WAYS) == if looked < WAYS then looked else 0
        invariant Passed(tags[..], was, refbit[..], set_, h, looked)
        decreases WAYS - looked
      {
        looked := looked + 1;
        NextSlot(h, w, WAYS);
        hand[set_] := (w + 1) % WAYS;
        if tags[WAYS * set_ + w] == 0 || !refbit[WAYS * set_ + w] {
          break;
        }
        Sweep(tags[..], was, refbit[..], set_, h, looked - 1, w);
        refbit[WAYS * set_ + w] := false;
        assert hand[..][set_] == (w + 1) % WAYS;
        w := hand[set_];
      }
    }

    /** The search of the page's own set finds it if it is anywhere. The tag of the last page
        number wraps to the tag of an empty slot. */
    method Probe(pageNo: u64) returns (set_: nat, found: Option<nat>)
      requires Valid()
      ensures set_ == home(pageNo) < sets
      ensures found.Some? ==> found.value < tags.Length && tags[found.value] == Bump(pageNo)
      ensures pageNo < U64_MAX ==> (found.Some? <==> pageNo + 1 in tags[..])
      ensures pageNo == U64_MAX ==> (found.Some? <==> EmptyIn(set_))
    {
      set_ := SetIndex(pageNo, sets, log);
      var w := Lookup(set_ * WAYS, Bump(pageNo));
      if w < WAYS {
        found := Some(set_ * WAYS + w);
      } else {
        found := None;
        if pageNo < U64_MAX {
          Absent(pageNo);
        }
      }
    }

    /** What is not in its own set is nowhere. */
    lemma Absent(pageNo: nat)
      requires Shaped() && Homed() && pageNo < U64_MAX
      requires forall i :: WAYS * home(pageNo) <= i < WAYS * home(pageNo) + WAYS && i < tags.Length ==>
        tags[i] != pageNo + 1
      ensures pageNo + 1 !in tags[..]
    {
      assert forall i :: 0 <= i < tags.Length && tags[i] != 0 ==> home(tags[i] - 1) == i / WAYS;
    }

    /** Put a page into a slot of its set. */
    method Put(victim: nat, pageNo: nat, page: Content, ghost fetch: nat -> Option<Content>)
      requires Valid() && Faithful(fetch) && fetch(pageNo) == Some(page)
      requires victim < tags.Length && victim / WAYS == home(pageNo)
      requires pageNo < U64_MAX && pageNo + 1 !in tags[..]
      modifies tags, slots, refbit
      ensures Valid() && Faithful(fetch)
      ensures tags[..] == old(tags[..])[victim := pageNo + 1]
      ensures Serves(victim, pageNo, fetch) && refbit[..] == old(refbit[..])[victim := true]
    {
      slots[victim] := page;
      tags[victim] := pageNo + 1;
      refbit[victim] := true;
      TagPut(old(tags[..]), victim, pageNo);
    }

    lemma TagPut(was: seq<nat>, victim: nat, pageNo: nat)
      requires Shaped() && |was| == tags.Length && victim < |was| && tags[..] == was[victim := pageNo + 1]
      requires pageNo < U64_MAX && pageNo + 1 !in was && victim / WAYS == home(pageNo)
      requires forall i, j :: 0 <= i < j < |was| && was[i] == was[j] ==> was[i] == 0
      requires forall i :: 0 <= i < |was| && was[i] != 0 ==> was[i] <= U64_MAX && home(was[i] - 1) == i / WAYS
      ensures Unique() && Homed()
    {
      assert forall i :: 0 <= i < |was| ==> tags[i] == if i == victim then pageNo + 1 else was[i];
    }

    /** Read a page into a slot of its set and keep it there. A failed read may leave anything in
        the slot it was to fill; `debris` is what it leaves. */
    method Fill(file: seq<Content>, pageNo: u64, transform: bool, debris: Content, victim: nat,
                ghost fetch: nat -> Option<Content>) returns (ok: bool)
      requires Valid() && Faithful(fetch) && Reads(fetch, file, transform)
      requires victim < tags.Length && victim / WAYS == home(pageNo)
      requires pageNo < U64_MAX ==> pageNo + 1 !in tags[..]
      modifies tags, slots, refbit
      ensures Valid() && (ok <==> fetch(pageNo).Some?)
      ensures refbit[..] == if ok then old(refbit[..])[victim := true] else old(refbit[..])
      ensures ok ==> Faithful(fetch) && Serves(victim, pageNo, fetch)
      ensures ok ==> tags[..] == old(tags[..])[victim := pageNo + 1]
      ensures !ok ==> tags[..] == old(tags[..]) && Spoilt(victim, old(slots[..]), fetch, debris)
    {
      var page := ReadPage(file, pageNo);
      ok := page.Some?;
      if !ok {
        slots[victim] := debris;
        SpoiltIff(victim, old(slots[..]), fetch, debris);
        return;
      }
      LastPageFails(file, pageNo, transform, fetch);
      var content := page.value;
      if transform {
        content := Transform(content, pageNo);
      }
      Put(victim, pageNo, content, fetch);
    }

    /** The slot of a set that the clock gives up. */
    method Victim(set_: nat) returns (i: nat)
      requires Shaped() && HandsIn() && set_ < sets
      modifies refbit, hand
      ensures HandsIn() && i < tags.Length && Turned(set_, i, tags[..], old(hand[..]), hand[..])
      ensures Clocked(tags[..], old(refbit[..]), refbit[..], set_, old(hand[set_]), i)
    {
      var w, looked := Evict(set_);
      i := set_ * WAYS + w;
      TurnedAt(set_, w, tags[..], old(hand[..]), hand[..]);
      ClockedAt(tags[..], old(refbit[..]), refbit[..], set_, old(hand[set_]), w, looked);
    }

    /** A page that is in no slot: choose a victim and read into it. */
    method Miss(file: seq<Content>, pageNo: u64, transform: bool, debris: Content, set_: nat,
                ghost fetch: nat -> Option<Content>) returns (r: Option<nat>, ghost victim: nat)
      requires Valid() && Faithful(fetch) && Reads(fetch, file, transform) && set_ == home(pageNo) < sets
      requires pageNo < U64_MAX ==> pageNo + 1 !in tags[..]
      modifies tags, slots, refbit, hand
      ensures Valid() && (r.Some? <==> fetch(pageNo).Some?)
      ensures r.Some? ==> Faithful(fetch) && Serves(r.value, pageNo, fetch)
      ensures r.Some? ==> tags[..] == old(tags[..])[r.value := pageNo + 1]
      ensures r.None? ==> tags[..] == old(tags[..]) && Spoilt(victim, old(slots[..]), fetch, debris)
      ensures Turned(set_, victim, old(tags[..]), old(hand[..]), hand[..]) && (r.Some? ==> r.value == victim)
      ensures Clocked(old(tags[..]), old(refbit[..]), refbit[..], set_, old(hand[set_]), victim)
      ensures r.Some? ==> refbit[r.value]
    {
      var i := Victim(set_);
      victim := i;
      ghost var passed := refbit[..];
      var ok := Fill(file, pageNo, transform, debris, i, fetch);
      ClockedFill(old(tags[..]), old(refbit[..]), passed, refbit[..], set_, old(hand[set_]), i);
      r := if ok then Some(i) else None;
    }

    lemma SpoiltIff(victim: nat, was: seq<Content>, fetch: nat -> Option<Content>, debris: Content)
      requires Shaped() && victim < tags.Length == |was| && slots[..] == was[victim := debris]
      requires forall i :: 0 <= i < tags.Length && tags[i] != 0 ==> fetch(tags[i] - 1) == Some(was[i])
      ensures Spoilt(victim, was, fetch, debris)
    {
      assert forall i :: 0 <= i < |was| ==> slots[i] == if i == victim then debris else was[i];
    }

    /** `cache_get`: the slot that holds the page, or nothing when the read fails. */
    method Get(file: seq<Content>, pageNo: u64, transform: bool, debris: Content,
               ghost fetch: nat -> Option<Content>) returns (r: Option<nat>, ghost victim: nat, ghost hit: bool)
      requires Valid() && Faithful(fetch) && Reads(fetch, file, transform)
      modifies this, tags, slots, refbit, hand
      ensures Valid() && Answered(r, pageNo, fetch)
      ensures r.None? ==> tags[..] == old(tags[..]) && Spoilt(victim, old(slots[..]), fetch, debris)
      ensures r.Some? ==> r.value < tags.Length && tags[..] == old(tags[..])[r.value := Bump(pageNo)]
      ensures fetch(pageNo).None? ==> (r.Some? <==> pageNo == U64_MAX && old(EmptyIn(home(pageNo))))
      ensures !hit ==> Turned(home(pageNo), victim, old(tags[..]), old(hand[..]), hand[..])
      ensures !hit && r.Some? ==> r.value == victim && refbit[victim]
      ensures !hit ==> Clocked(old(tags[..]), old(refbit[..]), refbit[..], home(pageNo), old(hand[home(pageNo)]),
        victim)
      ensures hit ==> r.Some? && refbit[..] == old(refbit[..])[r.value := true] && hand[..] == old(hand[..])
      ensures hit == if pageNo < U64_MAX then pageNo + 1 in old(tags[..]) else old(EmptyIn(home(pageNo)))
      ensures hits == if hit then Bump(old(hits)) else old(hits)
      ensures misses == if hit then old(misses) else Bump(old(misses))
    {
      var set_, found := Probe(pageNo);
      hit := found.Some?;
      if found.Some? {
        LastPageFails(file, pageNo, transform, fetch);
        Hit(found.value);
        r, victim := found, 0;
      } else {
        misses := Bump(misses);
        r, victim := Miss(file, pageNo, transform, debris, set_, fetch);
      }
    }

    /** Any run of requests for pages that can be read gives what an uncached reader gives. */
    method Serve(file: seq<Content>, pages: seq<u64>, transform: bool, ghost fetch: nat -> Option<Content>)
        returns (out: seq<Content>)
      requires Valid() && Faithful(fetch) && Reads(fetch, file, transform)
      requires forall i :: 0 <= i < |pages| ==> fetch(pages[i]).Some?
      modifies this, tags, slots, refbit, hand
      ensures Valid() && Faithful(fetch)
      ensures |out| == |pages| && forall i :: 0 <= i < |pages| ==> fetch(pages[i]) == Some(out[i])
    {
      out := [];
      for i := 0 to |pages|
        invariant Valid() && Faithful(fetch)
        invariant |out| == i && forall j :: 0 <= j < i ==> fetch(pages[j]) == Some(out[j])
      {
        var slot, _, _ := Get(file, pages[i], transform, seq(WORDS, _ => 0), fetch);
        out := out + [slots[slot.value]];
      }
    }

    method Hit(i: nat)
      requires Shaped() && i < tags.Length
      modifies this`hits, refbit
      ensures refbit[..] == old(refbit[..])[i := true] && hits == Bump(old(hits))
    {
      refbit[i] := true;
      hits := Bump(hits);
    }

    /** A page that can be read is served, and the cache stays faithful. */
    ghost predicate Answered(r: Option<nat>, pageNo: nat, fetch: nat -> Option<Content>)
      requires Shaped()
      reads tags, slots
    {
      fetch(pageNo).Some? ==> Faithful(fetch) && r.Some? && Serves(r.value, pageNo, fetch)
    }

    ghost predicate Serves(i: nat, pageNo: nat, fetch: nat -> Option<Content>)
      requires Shaped()
      reads tags, slots
    {
      i < tags.Length && tags[i] == pageNo + 1 && fetch(pageNo) == Some(slots[i])
    }

    /** After a failed read the cache can still be trusted exactly when the slot that was to be
        filled was empty, or what was left there is what it held. */
    ghost predicate Spoilt(victim: nat, was: seq<Content>, fetch: nat -> Option<Content>, debris: Content)
      requires Shaped()
      reads tags, slots
    {
      && victim < tags.Length == |was|
      && (Faithful(fetch) <==> tags[victim] == 0 || was[victim] == debris)
    }

    ghost predicate EmptyIn(set_: nat)
      reads tags
    {
      exists i :: WAYS * set_ <= i < WAYS * set_ + WAYS && i < tags.Length && tags[i] == 0
    }
  }

  /** No read of the last page number succeeds: its offset is negative. */
  lemma LastPageFails(file: seq<Content>, pageNo: nat, transform: bool, fetch: nat -> Option<Content>)
    requires Reads(fetch, file, transform)
    ensures pageNo == U64_MAX ==> fetch(pageNo).None?
  {
    assert ReadPage(file, U64_MAX).None?;
  }

  /** A clock hand, starting at h, went over n ways of a set: they were occupied and
      referenced, and only their reference bits are cleared. */
  ghost predicate Passed(tags: seq<nat>, was: seq<bool>, now: seq<bool>, set_: nat, h: nat, n: nat)
    requires h < WAYS
  {
    && |tags| == |was| == |now|
    && (forall i :: 0 <= i < |was| && InReach(i, set_, h, n) ==> tags[i] != 0 && was[i] && !now[i])
    && (forall i :: 0 <= i < |was| && !InReach(i, set_, h, n) ==> now[i] == was[i])
  }

  lemma Sweep(tags: seq<nat>, was: seq<bool>, now: seq<bool>, set_: nat, h: nat, n: nat, w: nat)
    requires h < WAYS && w < WAYS && WAYS * set_ + WAYS <= |tags| && Passed(tags, was, now, set_, h, n)
    requires n <= WAYS && Ahead(h, w, WAYS) == (if n < WAYS then n else 0)
    requires tags[WAYS * set_ + w] != 0 && now[WAYS * set_ + w]
    ensures n < WAYS && Passed(tags, was, now[WAYS * set_ + w := false], set_, h, n + 1)
  {
    assert InReach(WAYS * set_ + w, set_, h, n) <==> n == WAYS;
  }

  predicate InReach(i: nat, set_: nat, h: nat, n: nat)
    requires h < WAYS
  {
    WAYS * set_ <= i < WAYS * set_ + WAYS && Ahead(h, i - WAYS * set_, WAYS) < n
  }

  /** The slots of a set that are occupied and referenced. */
  ghost predicate AllReferenced(tags: seq<nat>, was: seq<bool>, set_: nat)
    requires |tags| == |was|
  {
    forall i :: 0 <= i < |tags| && WAYS * set_ <= i < WAYS * set_ + WAYS ==> tags[i] != 0 && was[i]
  }

  /** The clock gives up a slot that is empty or unreferenced, unless every slot of the set is
      occupied and referenced, and then the one at the hand. Of the others it clears the reference
      bits of those it passes, all of them referenced, and no more. */
  ghost predicate Clocked(tags: seq<nat>, was: seq<bool>, now: seq<bool>, set_: nat, h: nat, victim: nat) {
    && h < WAYS && |tags| == |was| == |now| && victim < |tags| && victim / WAYS == set_
    && (if AllReferenced(tags, was, set_) then victim == WAYS * set_ + h else tags[victim] == 0 || !was[victim])
    && var n := if AllReferenced(tags, was, set_) then WAYS else Ahead(h, victim % WAYS, WAYS);
       forall i :: 0 <= i < |was| && i != victim ==>
         if InReach(i, set_, h, n) then tags[i] != 0 && was[i] && !now[i] else now[i] == was[i]
  }

  lemma ClockedAt(tags: seq<nat>, was: seq<bool>, now: seq<bool>, set_: nat, h: nat, w: nat, looked: nat)
    requires h < WAYS && w < WAYS && 1 <= looked <= WAYS + 1 && WAYS * set_ + WAYS <= |tags|
    requires Ahead(h, w, WAYS) == if looked <= WAYS then looked - 1 else 0
    requires Passed(tags, was, now, set_, h, looked - 1)
    requires looked <= WAYS ==> tags[WAYS * set_ + w] == 0 || !was[WAYS * set_ + w]
    ensures Clocked(tags, was, now, set_, h, WAYS * set_ + w)
  {
    if looked == WAYS + 1 {
      assert forall i :: WAYS * set_ <= i < WAYS * set_ + WAYS ==> InReach(i, set_, h, WAYS);
    }
  }

  lemma ClockedFill(before: seq<nat>, was: seq<bool>, now: seq<bool>, last: seq<bool>, set_: nat, h: nat,
      victim: nat)
    requires Clocked(before, was, now, set_, h, victim) && |last| == |now| && last == now[victim := last[victim]]
    ensures Clocked(before, was, last, set_, h, victim)
  {
    assert forall i :: 0 <= i < |now| && i != victim ==> last[i] == now[i];
  }

  /** The hand of a set has gone on to the slot after the victim, which is the slot it stood at if
      that was empty. */
  ghost predicate Turned(set_: nat, victim: nat, tags: seq<nat>, was: seq<nat>, now: seq<nat>) {
    && set_ < |was| && was[set_] < WAYS && WAYS * set_ + WAYS <= |tags| && victim / WAYS == set_
    && now == was[set_ := (victim % WAYS + 1) % WAYS]
    && (tags[WAYS * set_ + was[set_]] == 0 ==> victim == WAYS * set_ + was[set_])
  }

  lemma TurnedAt(set_: nat, w: nat, tags: seq<nat>, was: seq<nat>, now: seq<nat>)
    requires set_ < |was| && was[set_] < WAYS && WAYS * set_ + WAYS <= |tags| && w < WAYS
    requires now == was[set_ := (w + 1) % WAYS]
    requires tags[WAYS * set_ + was[set_]] == 0 ==> w == was[set_]
    ensures Turned(set_, WAYS * set_ + w, tags, was, now)
  {
  }

  // Where the code does not do what it seems to

  /** The last page number is "found" in a cache that has never held anything. */
  method LastPageExample() returns (found: Option<nat>)
    ensures found.Some?
  {
    var cache := new Cache(8);
    var set_;
    set_, found := cache.Probe(U64_MAX);
    assert cache.tags[WAYS * set_] == 0;
  }

  /** The one set of a small cache, filled with the first pages of a file in their order. */
  ghost predicate FilledTo(cache: Cache, i: nat)
    reads cache, cache.tags, cache.hand
  {
    && cache.Valid() && cache.sets == 1 && i <= WAYS && cache.hand[0] == i % WAYS
    && forall j :: 0 <= j < WAYS ==> cache.tags[j] == if j < i then j + 1 else 0
  }

  method FillNext(cache: Cache, file: seq<Content>, i: nat, ghost fetch: nat -> Option<Content>)
    requires |file| == WAYS && Reads(fetch, file, false) && i < WAYS && FilledTo(cache, i) && cache.Faithful(fetch)
    modifies cache, cache.tags, cache.slots, cache.refbit, cache.hand
    ensures FilledTo(cache, i + 1) && cache.Faithful(fetch)
  {
    assert ReadPage(file, i).Some?;
    assert SetOf(i, cache.sets) == 0;
    assert i + 1 !in cache.tags[..];
    ghost var was, hands := cache.tags[..], cache.hand[..];
    var r, _, _ := cache.Get(file, i, false, file[0], fetch);
    assert was[i] == 0 && hands[0] == i;
    assert forall j :: 0 <= j < WAYS ==> cache.tags[..][j] == if j == i then i + 1 else was[j];
    assert cache.hand[..][0] == (i % WAYS + 1) % WAYS;
  }

  method FilledSet(file: seq<Content>, ghost fetch: nat -> Option<Content>) returns (cache: Cache)
    requires |file| == WAYS && Reads(fetch, file, false)
    ensures FilledTo(cache, WAYS) && cache.Faithful(fetch)
    ensures fresh(cache) && fresh(cache.tags) && fresh(cache.slots) && fresh(cache.refbit) && fresh(cache.hand)
  {
    cache := new Cache(8);
    for i := 0 to WAYS
      invariant FilledTo(cache, i) && cache.Faithful(fetch)
    {
      FillNext(cache, file, i, fetch);
    }
  }

  /** What the slots of a full set hold. */
  lemma FilledWith(cache: Cache, file: seq<Content>, fetch: nat -> Option<Content>, j: nat)
    requires |file| == WAYS && Reads(fetch, file, false) && FilledTo(cache, WAYS) && cache.Faithful(fetch) && j < WAYS
    ensures cache.slots[j] == file[j]
  {
    assert cache.tags[j] - 1 == j && ReadPage(file, j) == Some(file[j]);
  }

  /** A read that fails half way, of a ninth page into a full set: one of the eight pages keeps its
      tag and has other bytes. */
  method FailedRead(cache: Cache, file: seq<Content>, debris: Content, ghost fetch: nat -> Option<Content>)
    requires |file| == WAYS && Reads(fetch, file, false) && FilledTo(cache, WAYS) && cache.Faithful(fetch)
    requires debris !in file
    modifies cache, cache.tags, cache.slots, cache.refbit, cache.hand
    ensures cache.Valid() && cache.tags[..] == old(cache.tags[..]) && !cache.Faithful(fetch)
  {
    assert ReadPage(file, WAYS).None?;
    assert cache.tags[..] == old(cache.tags[..]);
    forall j | 0 <= j < WAYS ensures cache.slots[j] != debris {
      FilledWith(cache, file, fetch, j);
    }
    ghost var r, victim, hit := cache.Get(file, WAYS, false, debris, fetch);
  }

  method FailedReadExample() returns (cache: Cache, ghost fetch: nat -> Option<Content>)
    ensures cache.Valid() && cache.tags.Length == WAYS && !cache.Faithful(fetch)
    ensures forall j :: 0 <= j < WAYS ==> cache.tags[j] == j + 1
  {
    var zeros: Content, ones: Content := seq(WORDS, i => 0), seq(WORDS, i => 1);
    var file := seq(WAYS, i => zeros);
    fetch := (n: nat) => Fetch(file, n, false);
    cache := FilledSet(file, fetch);
    ghost var tags := cache.tags[..];
    assert zeros[0] == 0 && ones[0] == 1;
    FailedRead(cache, file, ones, fetch);
    assert cache.tags[..] == tags;
  }
}
