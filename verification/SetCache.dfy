/**
 The cache of the shape probe: sets of slots, an index function, and one of three policies.
 The LRU theorem ranges over every history of touches; the probation theorem over every
 sweep of pages that are not touched again.
 */
module SetCache {
  import opened Bits
  import opened ClockHand
  import opened CachePolicy

  datatype Policy = Clock | Lru | Probation
  datatype Hash = Low | Mixed

  const CAPACITY: nat := 8192

  // Searching a set

  method Find(s: Set, page: nat) returns (i: nat)
    ensures i <= |s| && (i < |s| ==> s[i].page == page)
    ensures forall j :: 0 <= j < i ==> s[j].page != page
  {
    i := 0;
    while i < |s| && s[i].page != page
      invariant i <= |s| && forall j :: 0 <= j < i ==> s[j].page != page
    {
      i := i + 1;
    }
  }

  /** The least stamp in the set, where it is first found. */
  ghost predicate IsOldest(s: Set, v: nat) {
    v < |s| && forall i :: 0 <= i < |s| ==> s[v].stamp <= s[i].stamp && (i < v ==> s[v].stamp < s[i].stamp)
  }

  /** The least stamp among the slots that are not promoted, where it is first found. */
  ghost predicate IsOldestOnProbation(s: Set, v: nat) {
    && v < |s| && !s[v].resident
    && forall i :: 0 <= i < |s| && !s[i].resident ==> s[v].stamp <= s[i].stamp && (i < v ==> s[v].stamp < s[i].stamp)
  }

  /** Stamps are 64-bit numbers. */
  ghost predicate Stamped(s: Set) {
    Before(s, U64_MAX + 1)
  }

  method Oldest(s: Set) returns (victim: nat)
    requires |s| > 0 && Stamped(s)
    ensures IsOldest(s, victim)
  {
    var oldest := U64_MAX;
    victim := 0;
    for i := 0 to |s|
      invariant oldest <= U64_MAX && (oldest == U64_MAX ==> victim == 0)
      invariant oldest < U64_MAX ==> victim < i && oldest == s[victim].stamp
      invariant forall j :: 0 <= j < i ==> oldest <= s[j].stamp && (j < victim ==> oldest < s[j].stamp)
    {
      if s[i].stamp < oldest {
        oldest, victim := s[i].stamp, i;
      }
    }
  }

  /** There is an unpromoted slot with a stamp below the value the search starts from. */
  ghost predicate Expendable(s: Set) {
    exists i :: 0 <= i < |s| && !s[i].resident && s[i].stamp < U64_MAX
  }

  method OldestOnProbation(s: Set) returns (victim: nat, found: bool)
    requires |s| > 0 && Stamped(s)
    ensures found == Expendable(s) && (found ==> IsOldestOnProbation(s, victim))
  {
    var oldest := U64_MAX;
    victim, found := 0, false;
    for i := 0 to |s|
      invariant !found ==> oldest == U64_MAX && forall j :: 0 <= j < i && !s[j].resident ==> s[j].stamp == U64_MAX
      invariant found ==> victim < i && oldest == s[victim].stamp < U64_MAX && !s[victim].resident
      invariant found ==>
        forall j :: 0 <= j < i && !s[j].resident ==> oldest <= s[j].stamp && (j < victim ==> oldest < s[j].stamp)
    {
      if !s[i].resident && s[i].stamp < oldest {
        oldest, victim, found := s[i].stamp, i, true;
      }
    }
  }

  // The clock

  /** A hand, starting at h, went over t slots: they were referenced, and only their reference
      bits are cleared. */
  ghost predicate Swept(s: Set, r: Set, h: nat, t: nat) {
    && |s| == |r| && h < |s|
    && (forall i :: 0 <= i < |s| && Ahead(h, i, |s|) < t ==> s[i].referenced && r[i] == s[i].(referenced := false))
    && (forall i :: 0 <= i < |s| && Ahead(h, i, |s|) >= t ==> r[i] == s[i])
  }

  /** The first slot from the hand on that is not referenced, or the slot at the hand once all
      have been passed. */
  ghost predicate IsClockVictim(s: Set, r: Set, h: nat, v: nat) {
    && h < |s| && v < |s| && |r| == |s|
    && if forall i :: 0 <= i < |s| ==> s[i].referenced then v == h && Swept(s, r, h, |s|)
       else !s[v].referenced && Swept(s, r, h, Ahead(h, v, |s|))
  }

  method ClockVictim(s: Set, h: nat) returns (r: Set, victim: nat)
    requires h < |s|
    ensures IsClockVictim(s, r, h, victim)
  {
    victim, r := h, s;
    ghost var t := 0;
    while r[victim].referenced
      invariant victim < |s| && t <= |s| && Swept(s, r, h, t)
      invariant Ahead(h, victim, |s|) == if t < |s| then t else 0
      decreases |s| - t
    {
      r := r[victim := r[victim].(referenced := false)];
      NextSlot(h, victim, |s|);
      victim := (victim + 1) % |s|;
      t := t + 1;
    }
  }

  // One touch of one set

  ghost predicate Full(s: Set) {
    forall i :: 0 <= i < |s| ==> s[i].page != EMPTY
  }

  ghost predicate Absent(s: Set, page: nat) {
    forall i :: 0 <= i < |s| ==> s[i].page != page
  }

  /** The slot a miss takes, and the set as the search for it leaves it. */
  ghost predicate Chosen(policy: Policy, s: Set, r: Set, h: nat, v: nat) {
    && v < |s| == |r|
    && if !Full(s) then r == s && s[v].page == EMPTY && forall j :: 0 <= j < v ==> s[j].page != EMPTY
       else match policy
         case Lru => r == s && IsOldest(s, v)
         case Clock => IsClockVictim(s, r, h, v)
         case Probation => r == s && if Expendable(s) then IsOldestOnProbation(s, v) else IsOldest(s, v)
  }

  method Choose(policy: Policy, s: Set, h: nat) returns (r: Set, v: nat, hand: nat)
    requires h < |s| && Stamped(s)
    ensures Chosen(policy, s, r, h, v)
    ensures hand == if Full(s) && policy == Clock then (if v + 1 < |s| then v + 1 else 0) else h
  {
    r, hand := s, h;
    v := Find(s, EMPTY);
    if v < |s| {
      return;
    }
    match policy {
      case Lru =>
        v := Oldest(s);
      case Clock =>
        r, v := ClockVictim(s, h);
        NextSlot(h, v, |s|);
        hand := (v + 1) % |s|;
      case Probation =>
        var found;
        v, found := OldestOnProbation(s);
        if !found {
          v := Oldest(s);
        }
    }
  }

  function Promoted(x: Slot, t: u64): Slot {
    x.(stamp := t, referenced := true, resident := true)
  }

  function Placed(page: nat, t: u64): Slot {
    Slot(page, t, false, false)
  }

  /** An LRU touch of a set that holds the page. */
  lemma LruHit(s: Set, o: seq<nat>, i: nat, t: u64)
    requires Ranked(s, o) && i < |s| && s[i].page != EMPTY && Before(s, t)
    ensures Ranked(s[i := Promoted(s[i], t)], Take([s[i].page] + Without(o, s[i].page), |s|))
  {
    HitRanked(s, o, i, Promoted(s[i], t));
    RankedCount(s[i := Promoted(s[i], t)], [s[i].page] + Without(o, s[i].page));
  }

  /** An LRU touch of a set that does not. */
  lemma LruMiss(s: Set, o: seq<nat>, v: nat, page: nat, t: u64)
    requires Ranked(s, o) && Absent(s, page) && page != EMPTY && Before(s, t) && Chosen(Lru, s, s, 0, v)
    ensures Ranked(s[v := Placed(page, t)], Take([page] + Without(o, page), |s|))
  {
    AbsentFrom(s, o, page);
    WithoutAbsent(o, page);
    RankedCount(s, o);
    if Full(s) {
      LruEvict(s, o, v, Placed(page, t));
    } else {
      EmptyRanked(s, o, v, Placed(page, t));
    }
  }

  lemma LruEvict(s: Set, o: seq<nat>, v: nat, x: Slot)
    requires Ranked(s, o) && x.page != EMPTY && x.page !in o && Before(s, x.stamp) && Full(s) && IsOldest(s, v)
      && |o| == |s|
    ensures Ranked(s[v := x], Take([x.page] + o, |s|))
  {
    FullRanked(s, o, v, x);
    FrontCut(x.page, o);
  }

  lemma FrontCut(p: nat, o: seq<nat>)
    requires |o| > 0
    ensures Take([p] + o, |o|) == [p] + o[..|o| - 1]
  {
  }

  lemma AbsentFrom(s: Set, o: seq<nat>, page: nat)
    requires Ranked(s, o) && Absent(s, page)
    ensures page !in o
  {
    var at :| Tracks(s, o, at);
    assert forall k :: 0 <= k < |o| ==> s[at[k]].page == o[k];
  }

  // Histories

  /** The touches that fall into one set. */
  function Only(history: seq<nat>, home: nat -> nat, s: nat): (r: seq<nat>) {
    if |history| == 0 then []
    else
      var p := history[|history| - 1];
      Only(history[..|history| - 1], home, s) + (if home(p) == s then [p] else [])
  }

  /** The most recently touched pages of a set, as many as it has room for. */
  function MostRecent(history: seq<nat>, home: nat -> nat, s: nat, ways: nat): (o: seq<nat>) {
    Take(Recency(Only(history, home, s)), ways)
  }

  lemma MostRecentNext(history: seq<nat>, home: nat -> nat, page: nat, s: nat, ways: nat)
    requires ways > 0
    ensures MostRecent(history + [page], home, s, ways) ==
      if home(page) != s then MostRecent(history, home, s, ways)
      else Take([page] + Without(MostRecent(history, home, s, ways), page), ways)
  {
    assert (history + [page])[..|history|] == history;
    var h := Only(history, home, s);
    assert (h + [page])[..|h|] == h;
    if home(page) == s {
      RecencyDistinct(h);
      TouchTaken(Recency(h), page, ways);
    } else {
      assert h + [] == h;
    }
  }

  // The cache

  function IndexOf(hash: Hash, page: nat, sets: nat): (s: nat)
    requires sets > 0
    ensures s < sets
  {
    match hash
    case Low => And(page, sets - 1)
    case Mixed => And(Wrap64(page * 0x9E37_79B9_7F4A_7C15) / 0x100_0000_0000, sets - 1)
  }

  ghost predicate DistinctPages(s: Set) {
    forall i, j :: 0 <= i < j < |s| && s[i].page == s[j].page ==> s[i].page == EMPTY
  }

  /** Pages are in their own set, once. */
  ghost predicate Tidy(s: Set, home: nat -> nat, index: nat) {
    DistinctPages(s) && forall i :: 0 <= i < |s| && s[i].page != EMPTY ==> home(s[i].page) == index
  }

  lemma TidyHit(s: Set, home: nat -> nat, index: nat, i: nat, t: u64)
    requires Tidy(s, home, index) && i < |s|
    ensures Tidy(s[i := Promoted(s[i], t)], home, index)
  {
    var r := s[i := Promoted(s[i], t)];
    assert forall j :: 0 <= j < |s| ==> r[j].page == s[j].page;
  }

  lemma TidyMiss(policy: Policy, s: Set, r: Set, h: nat, v: nat, page: nat, t: u64, home: nat -> nat, index: nat)
    requires Tidy(s, home, index) && Chosen(policy, s, r, h, v) && Absent(s, page) && home(page) == index
    ensures Tidy(r[v := Placed(page, t)], home, index)
  {
    assert forall j :: 0 <= j < |s| ==> r[j].page == s[j].page;
  }

  /** What one touch does to the page's own set and its hand. */
  ghost predicate SetStep(policy: Policy, s: Set, h: nat, page: nat, t: u64, s': Set, h': nat, hit: bool, i: nat,
      r: Set) {
    && i < |s| == |r|
    && if hit then s[i].page == page && r == s && s' == s[i := Promoted(s[i], t)] && h' == h
       else && Absent(s, page) && Chosen(policy, s, r, h, i) && s' == r[i := Placed(page, t)]
            && h' == if Full(s) && policy == Clock then (if i + 1 < |s| then i + 1 else 0) else h
  }

  method TouchSet(policy: Policy, s: Set, h: nat, page: nat, t: u64, ghost home: nat -> nat, ghost index: nat)
    returns (hit: bool, s': Set, h': nat, ghost i: nat, ghost r: Set)
    requires h < |s| && Stamped(s) && Tidy(s, home, index) && home(page) == index
    ensures SetStep(policy, s, h, page, t, s', h', hit, i, r)
    ensures |s'| == |s| && h' < |s| && Stamped(s') && Tidy(s', home, index)
  {
    var found := Find(s, page);
    if found < |s| {
      hit, i, r, h' := true, found, s, h;
      s' := s[found := Promoted(s[found], t)];
      TidyHit(s, home, index, found, t);
    } else {
      var next, v;
      next, v, h' := Choose(policy, s, h);
      hit, i, r := false, v, next;
      TidyMiss(policy, s, next, h, v, page, t, home, index);
      s' := next[v := Placed(page, t)];
    }
    StampsNext(policy, s, h, page, t, s', h', hit, i, r);
  }

  /** The stamp of a touch is the only new one. */
  lemma StampsNext(policy: Policy, s: Set, h: nat, page: nat, t: u64, s': Set, h': nat, hit: bool, i: nat, r: Set)
    requires SetStep(policy, s, h, page, t, s', h', hit, i, r)
    ensures |s'| == |s| && forall j :: 0 <= j < |s| ==> s'[j].stamp == if j == i then t else s[j].stamp
  {
    assert forall j :: 0 <= j < |s| ==> r[j].stamp == s[j].stamp;
  }

  /** The page touched is in slot i, with the stamp of the touch. A hit leaves it referenced and
      promoted, a miss neither. No other slot changes, but for the reference bits a hand clears. */
  ghost predicate Touched(policy: Policy, s: Set, s': Set, i: nat, page: nat, t: u64, hit: bool) {
    && i < |s| == |s'|
    && s'[i].page == page && s'[i].stamp == t && s'[i].referenced == hit && s'[i].resident == hit
    && (forall j :: 0 <= j < |s| && j != i ==>
          s'[j].page == s[j].page && s'[j].stamp == s[j].stamp && s'[j].resident == s[j].resident)
    && (hit || policy != Clock || !Full(s) ==> forall j :: 0 <= j < |s| && j != i ==> s'[j] == s[j])
  }

  lemma StepTouches(policy: Policy, s: Set, h: nat, page: nat, t: u64, s': Set, h': nat, hit: bool, i: nat, r: Set)
    requires SetStep(policy, s, h, page, t, s', h', hit, i, r)
    ensures Touched(policy, s, s', i, page, t, hit)
    ensures hit <==> !Absent(s, page)
  {
    assert hit ==> s[i].page == page;
    assert forall j :: 0 <= j < |s| ==>
      r[j].page == s[j].page && r[j].stamp == s[j].stamp && r[j].resident == s[j].resident;
  }

  // What the bits remember

  /** The page has been touched at place n of the history or later. */
  ghost predicate Since(history: seq<nat>, n: nat, p: nat) {
    exists k :: n <= k < |history| && history[k] == p
  }

  lemma SinceNext(history: seq<nat>, n: nat, p: nat, page: nat)
    requires n <= |history|
    ensures Since(history + [page], n, p) <==> Since(history, n, p) || p == page
  {
    var next := history + [page];
    assert next[|history|] == page;
    if Since(history, n, p) {
      var k :| n <= k < |history| && history[k] == p;
      assert next[k] == p;
    }
  }

  /** Promoted means touched again since it was placed; referenced, since it was placed or the hand
      last passed it. */
  ghost predicate Recalls(x: Slot, history: seq<nat>, placed: map<nat, nat>, passed: map<nat, nat>) {
    x.page != EMPTY ==>
      && x.page in placed && placed[x.page] <= |history| && (x.resident <==> Since(history, placed[x.page], x.page))
      && x.page in passed && passed[x.page] <= |history| && (x.referenced <==> Since(history, passed[x.page], x.page))
  }

  ghost predicate AllRecall(s: Set, history: seq<nat>, placed: map<nat, nat>, passed: map<nat, nat>) {
    forall i :: 0 <= i < |s| ==> Recalls(s[i], history, placed, passed)
  }

  function Lengthened(history: seq<nat>, page: nat): (h: seq<nat>) {
    if page == EMPTY then history else history + [page]
  }

  /** Where in the history a page was placed last, once it has been touched. */
  function PlacedNext(placed: map<nat, nat>, page: nat, hit: bool, n: nat): map<nat, nat> {
    if hit || page == EMPTY then placed else placed[page := n]
  }

  /** Where in the history the hand last passed a page, or the page was placed. */
  function PassedNext(passed: map<nat, nat>, s: Set, r: Set, page: nat, hit: bool, n: nat): map<nat, nat>
    requires |s| == |r|
  {
    PlacedNext(passed + map i | 0 <= i < |s| && s[i].referenced && !r[i].referenced :: s[i].page := n, page, hit, n)
  }

  /** A slot that the touch does not change. */
  lemma RecallsOther(x: Slot, history: seq<nat>, page: nat, placed: map<nat, nat>, passed: map<nat, nat>,
      placed': map<nat, nat>, passed': map<nat, nat>)
    requires Recalls(x, history, placed, passed) && x.page != page
    requires x.page in placed ==> x.page in placed' && placed'[x.page] == placed[x.page]
    requires x.page in passed ==> x.page in passed' && passed'[x.page] == passed[x.page]
    ensures Recalls(x, Lengthened(history, page), placed', passed')
  {
    if x.page != EMPTY && page != EMPTY {
      SinceNext(history, placed[x.page], x.page, page);
      SinceNext(history, passed[x.page], x.page, page);
    }
  }

  /** A slot whose reference bit the hand clears. */
  lemma RecallsPassed(x: Slot, history: seq<nat>, page: nat, placed: map<nat, nat>, passed: map<nat, nat>,
      placed': map<nat, nat>, passed': map<nat, nat>)
    requires Recalls(x, history, placed, passed) && x.page != page
    requires x.page in placed ==> x.page in placed' && placed'[x.page] == placed[x.page]
    requires x.page in passed' && passed'[x.page] == |Lengthened(history, page)|
    ensures Recalls(x.(referenced := false), Lengthened(history, page), placed', passed')
  {
    if x.page != EMPTY && page != EMPTY {
      SinceNext(history, placed[x.page], x.page, page);
    }
  }

  lemma RecallsHit(x: Slot, t: u64, history: seq<nat>, placed: map<nat, nat>, passed: map<nat, nat>)
    requires Recalls(x, history, placed, passed)
    ensures Recalls(Promoted(x, t), Lengthened(history, x.page), placed, passed)
  {
    if x.page != EMPTY {
      SinceNext(history, placed[x.page], x.page, x.page);
      SinceNext(history, passed[x.page], x.page, x.page);
    }
  }

  lemma RecallHit(s: Set, i: nat, page: nat, t: u64, history: seq<nat>, placed: map<nat, nat>, passed: map<nat, nat>,
      passed': map<nat, nat>)
    requires AllRecall(s, history, placed, passed) && DistinctPages(s) && i < |s| && s[i].page == page
    requires passed' == PassedNext(passed, s, s, page, true, |Lengthened(history, page)|)
    ensures AllRecall(s[i := Promoted(s[i], t)], Lengthened(history, page), placed, passed')
  {
    assert passed' == passed;
    RecallsHit(s[i], t, history, placed, passed);
    forall j | 0 <= j < |s| && j != i ensures Recalls(s[j], Lengthened(history, page), placed, passed) {
      if s[j].page != page {
        RecallsOther(s[j], history, page, placed, passed, placed, passed);
      }
    }
  }

  lemma RecallMiss(policy: Policy, s: Set, h: nat, page: nat, t: u64, s': Set, h': nat, i: nat, r: Set,
      history: seq<nat>, placed: map<nat, nat>, passed: map<nat, nat>, placed': map<nat, nat>, passed': map<nat, nat>)
    requires SetStep(policy, s, h, page, t, s', h', false, i, r)
    requires AllRecall(s, history, placed, passed) && DistinctPages(s)
    requires placed' == PlacedNext(placed, page, false, |Lengthened(history, page)|)
    requires passed' == PassedNext(passed, s, r, page, false, |Lengthened(history, page)|)
    ensures AllRecall(s', Lengthened(history, page), placed', passed')
  {
    forall j | 0 <= j < |s| && j != i ensures Recalls(s'[j], Lengthened(history, page), placed', passed') {
      assert r[j] == s[j] || r[j] == s[j].(referenced := false);
      RecallMissed(s, r, j, page, history, placed, passed, placed', passed');
    }
  }

  lemma RecallMissed(s: Set, r: Set, j: nat, page: nat, history: seq<nat>, placed: map<nat, nat>,
      passed: map<nat, nat>, placed': map<nat, nat>, passed': map<nat, nat>)
    requires Absent(s, page) && AllRecall(s, history, placed, passed) && DistinctPages(s)
    requires j < |s| == |r| && (r[j] == s[j] || r[j] == s[j].(referenced := false))
    requires placed' == PlacedNext(placed, page, false, |Lengthened(history, page)|)
    requires passed' == PassedNext(passed, s, r, page, false, |Lengthened(history, page)|)
    ensures Recalls(r[j], Lengthened(history, page), placed', passed')
  {
    if s[j].page != EMPTY {
      if s[j].referenced && !r[j].referenced {
        RecallsPassed(s[j], history, page, placed, passed, placed', passed');
      } else {
        assert forall k :: 0 <= k < |s| && s[k].page == s[j].page ==> k == j;
        RecallsOther(s[j], history, page, placed, passed, placed', passed');
      }
    }
  }

  /** A set the page does not map to. */
  lemma RecallElsewhere(s: Set, r: Set, other: Set, page: nat, hit: bool, history: seq<nat>,
      placed: map<nat, nat>, passed: map<nat, nat>, placed': map<nat, nat>, passed': map<nat, nat>)
    requires AllRecall(other, history, placed, passed) && |s| == |r|
    requires forall j :: 0 <= j < |other| && other[j].page != EMPTY ==> other[j].page != page
    requires forall i, j :: 0 <= i < |s| && 0 <= j < |other| && s[i].page == other[j].page ==> s[i].page == EMPTY
    requires placed' == PlacedNext(placed, page, hit, |Lengthened(history, page)|)
    requires passed' == PassedNext(passed, s, r, page, hit, |Lengthened(history, page)|)
    ensures AllRecall(other, Lengthened(history, page), placed', passed')
  {
    forall j | 0 <= j < |other| ensures Recalls(other[j], Lengthened(history, page), placed', passed') {
      if other[j].page != EMPTY {
        RecallsOther(other[j], history, page, placed, passed, placed', passed');
      }
    }
  }

  /** In a full set the clock takes a page that has been touched since the hand last passed it if
      and only if there is no other, and then the one at the hand. */
  lemma ClockEvicts(s: Set, h: nat, page: nat, t: u64, s': Set, h': nat, i: nat, r: Set,
      history: seq<nat>, placed: map<nat, nat>, passed: map<nat, nat>)
    requires SetStep(Clock, s, h, page, t, s', h', false, i, r) && Full(s) && AllRecall(s, history, placed, passed)
    ensures forall j :: 0 <= j < |s| ==> s[j].page in passed
    ensures Since(history, passed[s[i].page], s[i].page) <==>
      forall j :: 0 <= j < |s| ==> Since(history, passed[s[j].page], s[j].page)
    ensures Since(history, passed[s[i].page], s[i].page) ==> i == h
  {
    assert forall j :: 0 <= j < |s| ==> Recalls(s[j], history, placed, passed);
  }

  // One touch under LRU

  lemma LruStep(s: Set, h: nat, o: seq<nat>, page: nat, t: u64, s': Set, h': nat, hit: bool, i: nat, r: Set)
    requires Ranked(s, o) && page != EMPTY && Before(s, t) && SetStep(Lru, s, h, page, t, s', h', hit, i, r)
    ensures Ranked(s', Take([page] + Without(o, page), |s|))
  {
    if hit {
      LruHit(s, o, i, t);
    } else {
      LruMiss(s, o, i, page, t);
    }
  }

  /** The page number that marks an empty slot: a touch of it takes nothing from a set with an
      empty slot, and the oldest page from a full one. */
  lemma LruStepEmpty(s: Set, h: nat, o: seq<nat>, t: u64, s': Set, h': nat, hit: bool, i: nat, r: Set)
    requires Ranked(s, o) && SetStep(Lru, s, h, EMPTY, t, s', h', hit, i, r)
    ensures hit <==> !Full(s)
    ensures Ranked(s', o) <==> !Full(s)
  {
    if hit {
      EmptyTouched(s, o, i, t);
    } else {
      EmptyPlaced(s, o, i, Placed(EMPTY, t));
    }
  }

  lemma EmptyTouched(s: Set, o: seq<nat>, i: nat, t: u64)
    requires Ranked(s, o) && i < |s| && s[i].page == EMPTY
    ensures Ranked(s[i := Promoted(s[i], t)], o)
  {
    var at :| Tracks(s, o, at);
    EmptyTracks(s, o, at, i, Promoted(s[i], t));
    RankedBy(s[i := Promoted(s[i], t)], o, at);
  }

  lemma EmptyTracks(s: Set, o: seq<nat>, at: seq<nat>, i: nat, x: Slot)
    requires Tracks(s, o, at) && i < |s| && s[i].page == EMPTY == x.page
    ensures Tracks(s[i := x], o, at)
  {
    assert forall k :: 0 <= k < |o| ==> at[k] != i && s[i := x][at[k]] == s[at[k]];
  }

  lemma EmptyPlaced(s: Set, o: seq<nat>, i: nat, x: Slot)
    requires Ranked(s, o) && Full(s) && i < |s| && x.page == EMPTY
    ensures !Ranked(s[i := x], o)
  {
    assert s[i := x][i].page == EMPTY;
    RankedCount(s, o);
    if Ranked(s[i := x], o) {
      RankedCount(s[i := x], o);
    }
  }

  /** A stamp of zero, once the clock has wrapped: the order is right only for a page alone. */
  lemma LruStepWrapped(s: Set, h: nat, o: seq<nat>, page: nat, s': Set, h': nat, hit: bool, i: nat, r: Set,
      o': seq<nat>)
    requires Ranked(s, o) && page != EMPTY && SetStep(Lru, s, h, page, 0, s', h', hit, i, r)
    requires o' == Take([page] + Without(o, page), |s|)
    ensures Ranked(s', o') <==> |o'| == 1
  {
    assert s'[i].page == page && s'[i].stamp == 0 && o'[0] == page;
    if Ranked(s', o') {
      ZeroIsLast(s', o', i);
    }
    if |o'| == 1 {
      AloneAfter(s, h, o, page, s', h', hit, i, r);
      RankedBy(s', o', [i]);
    }
  }

  lemma ZeroIsLast(s: Set, o: seq<nat>, i: nat)
    requires Ranked(s, o) && i < |s| && s[i].page != EMPTY && s[i].stamp == 0
    ensures |o| > 0 && o[|o| - 1] == s[i].page
  {
    var at :| Tracks(s, o, at);
    LeastIsLast(s, o, at, i);
  }

  lemma LeastIsLast(s: Set, o: seq<nat>, at: seq<nat>, i: nat)
    requires Tracks(s, o, at) && i < |s| && s[i].page != EMPTY && s[i].stamp == 0
    ensures |o| > 0 && o[|o| - 1] == s[i].page
  {
    LastIsOldest(s, o, at, i);
  }

  lemma AloneAfter(s: Set, h: nat, o: seq<nat>, page: nat, s': Set, h': nat, hit: bool, i: nat, r: Set)
    requires Ranked(s, o) && page != EMPTY && SetStep(Lru, s, h, page, 0, s', h', hit, i, r)
    requires |Take([page] + Without(o, page), |s|)| == 1
    ensures forall j :: 0 <= j < |s'| && j != i ==> s'[j].page == EMPTY
  {
    if |s| > 1 {
      OnlyOne(s, o, page);
      OneSlot(s, o, page);
    }
  }

  lemma OnlyOne(s: Set, o: seq<nat>, page: nat)
    requires Ranked(s, o) && Without(o, page) == []
    ensures forall j :: 0 <= j < |s| ==> s[j].page == EMPTY || s[j].page == page
  {
    var at :| Tracks(s, o, at);
    forall j | 0 <= j < |s| ensures s[j].page == EMPTY || s[j].page == page {
      if s[j].page != EMPTY {
        assert j in at;
        WithoutHas(o, page, s[j].page);
      }
    }
  }

  lemma OneSlot(s: Set, o: seq<nat>, page: nat)
    requires Ranked(s, o) && Without(o, page) == []
    ensures forall i, j :: 0 <= i < |s| && 0 <= j < |s| && s[i].page != EMPTY && s[j].page != EMPTY ==> i == j
  {
    NothingElse(o, page);
    var at :| Tracks(s, o, at);
  }

  lemma NothingElse(o: seq<nat>, page: nat)
    requires Distinct(o) && Without(o, page) == []
    ensures |o| <= 1
  {
    if |o| > 1 {
      var first, second := o[0], o[1];
      WithoutHas(o, page, first);
      WithoutHas(o, page, second);
    }
  }

  lemma {:induction false} WithoutHas(o: seq<nat>, p: nat, q: nat)
    requires q in o
    ensures q == p || q in Without(o, p)
  {
    if o[0] != q {
      WithoutHas(o[1..], p, q);
    }
  }

  function EmptySet(ways: nat): (s: Set) {
    seq(ways, _ => Slot(EMPTY, 0, false, false))
  }

  lemma EmptySetIs(ways: nat, home: nat -> nat, index: nat)
    ensures |EmptySet(ways)| == ways && Before(EmptySet(ways), 1) && Tidy(EmptySet(ways), home, index)
    ensures Ranked(EmptySet(ways), MostRecent([], home, index, ways))
    ensures forall p :: p != EMPTY ==> Absent(EmptySet(ways), p)
  {
    RankedBy(EmptySet(ways), [], []);
  }

  lemma EmptyRecalls(ways: nat)
    ensures AllRecall(EmptySet(ways), [], map[], map[])
  {
  }

  lemma SomeSet(ways: nat)
    requires 0 < ways <= CAPACITY
    ensures CAPACITY / ways > 0
  {
  }

  class Cache {
    const slots: array<Set>
    const hand: array<nat>
    const sets: nat
    const ways: nat
    const hash: Hash
    const policy: Policy
    ghost const home: nat -> nat
    var clock: u64
    var hits: nat
    var misses: nat
    ghost var history: seq<nat>  // the touches, without those of the number that marks an empty slot
    ghost var placed: map<nat, nat>  // where in the history a page was last placed
    ghost var passed: map<nat, nat>  // where it was placed or the hand last passed it

    ghost predicate Shaped()
      reads hand
    {
      && slots.Length == hand.Length == sets && sets > 0 && ways > 0
      && (forall p: nat {:trigger IndexOf(hash, p, sets)} :: home(p) == IndexOf(hash, p, sets))
      && (forall s :: 0 <= s < sets ==> hand[s] < ways)
    }

    ghost predicate Valid()
      reads slots, hand
    {
      Shaped() && forall s :: 0 <= s < sets ==> |slots[s]| == ways && Stamped(slots[s]) && Tidy(slots[s], home, s)
    }

    /** No stamp is ahead of the clock. */
    ghost predicate InOrder()
      requires Shaped()
      reads this`clock, slots, hand
    {
      forall s :: 0 <= s < sets ==> Before(slots[s], clock + 1)
    }

    /** Every set holds its most recently touched pages, in the order of their stamps. */
    ghost predicate KeepsMostRecent()
      requires Valid()
      reads this`history, slots, hand
    {
      forall s :: 0 <= s < sets ==> Ranked(slots[s], MostRecent(history, home, s, ways))
    }

    /** The bits of every slot say what has been touched since when. */
    ghost predicate Remembers()
      requires Valid()
      reads this`history, this`placed, this`passed, slots, hand
    {
      forall s :: 0 <= s < sets ==> AllRecall(slots[s], history, placed, passed)
    }

    constructor (ways_: nat, hash_: Hash, policy_: Policy)
      requires 0 < ways_ <= CAPACITY
      ensures Valid() && Remembers() && InOrder() && KeepsMostRecent() && fresh(slots) && fresh(hand)
      ensures history == [] && clock == hits == misses == 0
      ensures ways == ways_ && sets == CAPACITY / ways_ && hash == hash_ && policy == policy_
      ensures forall s, p :: 0 <= s < sets && p != EMPTY ==> Absent(slots[s], p)
    {
      var n := CAPACITY / ways_;
      SomeSet(ways_);
      var empty := EmptySet(ways_);
      ways, sets, hash, policy := ways_, n, hash_, policy_;
      home := p => IndexOf(hash_, p, n);
      slots := new Set[n](_ => empty);
      hand := new nat[n](_ => 0);
      clock, hits, misses, history, placed, passed := 0, 0, 0, [], map[], map[];
      new;
      forall s | 0 <= s < n
        ensures slots[s] == empty && |empty| == ways && Before(empty, 1) && Tidy(empty, home, s)
        ensures AllRecall(empty, [], map[], map[]) && Ranked(empty, MostRecent([], home, s, ways))
        ensures forall p :: p != EMPTY ==> Absent(empty, p)
      {
        EmptySetIs(ways_, home, s);
        EmptyRecalls(ways_);
      }
    }

    method Index(page: nat) returns (s: nat)
      requires Shaped()
      ensures s == home(page) < sets
    {
      s := IndexOf(hash, page, sets);
    }

    /** `cache_get`, but for what it leaves in the history. */
    method Look(page: u64) returns (hit: bool, ghost i: nat, ghost r: Set)
      requires Valid()
      modifies this`clock, this`hits, this`misses, slots, hand
      ensures Valid() && clock == Bump(old(clock))
      ensures home(page) < sets && slots[..] == old(slots[..])[home(page) := slots[home(page)]]
      ensures hand[..] == old(hand[..])[home(page) := hand[home(page)]]
      ensures SetStep(policy, old(slots[home(page)]), old(hand[home(page)]), page, clock,
                      slots[home(page)], hand[home(page)], hit, i, r)
      ensures hits == (if hit then Bump(old(hits)) else old(hits))
      ensures misses == if hit then old(misses) else Bump(old(misses))
    {
      var s := Index(page);
      clock := Bump(clock);
      var set_, h;
      hit, set_, h, i, r := TouchSet(policy, slots[s], hand[s], page, clock, home, s);
      slots[s], hand[s] := set_, h;
      if hit {
        hits := Bump(hits);
      } else {
        misses := Bump(misses);
      }
    }

    /** `cache_get`. The slot touched is i; r is its set as the search for it leaves it. */
    method Get(page: u64) returns (hit: bool, ghost i: nat, ghost r: Set)
      requires Valid()
      modifies this, slots, hand
      ensures Valid() && clock == Bump(old(clock))
      ensures home(page) < sets && slots[..] == old(slots[..])[home(page) := slots[home(page)]]
      ensures hand[..] == old(hand[..])[home(page) := hand[home(page)]]
      ensures SetStep(policy, old(slots[home(page)]), old(hand[home(page)]), page, clock,
                      slots[home(page)], hand[home(page)], hit, i, r)
      ensures Touched(policy, old(slots[home(page)]), slots[home(page)], i, page, clock, hit)
      ensures history == Lengthened(old(history), page) && placed == PlacedNext(old(placed), page, hit, |history|)
      ensures passed == PassedNext(old(passed), old(slots[home(page)]), r, page, hit, |history|)
      ensures old(Remembers()) ==> Remembers()
      ensures hits == (if hit then Bump(old(hits)) else old(hits))
      ensures misses == if hit then old(misses) else Bump(old(misses))
    {
      ghost var was, hands, past, before, marks := slots[..], hand[..], history, placed, passed;
      ghost var recalled := Remembers();
      hit, i, r := Look(page);
      ghost var s := home(page);
      StepTouches(policy, was[s], hands[s], page, clock, slots[s], hand[s], hit, i, r);
      history := Lengthened(history, page);
      placed := PlacedNext(placed, page, hit, |history|);
      passed := PassedNext(passed, was[s], r, page, hit, |history|);
      if recalled {
        RecallAll(was, hands, past, before, marks, page, hit, i, r);
      }
    }

    lemma RecallAll(was: seq<Set>, hands: seq<nat>, past: seq<nat>, before: map<nat, nat>, marks: map<nat, nat>,
        page: u64, hit: bool, i: nat, r: Set)
      requires Valid() && |was| == |hands| == sets && home(page) < sets
      requires slots[..] == was[home(page) := slots[home(page)]]
      requires forall k :: 0 <= k < sets ==> Tidy(was[k], home, k) && AllRecall(was[k], past, before, marks)
      requires SetStep(policy, was[home(page)], hands[home(page)], page, clock, slots[home(page)], hand[home(page)],
        hit, i, r)
      requires history == Lengthened(past, page) && placed == PlacedNext(before, page, hit, |history|)
      requires passed == PassedNext(marks, was[home(page)], r, page, hit, |history|)
      ensures Remembers()
    {
      var s := home(page);
      if hit {
        RecallHit(was[s], i, page, clock, past, before, marks, passed);
      } else {
        RecallMiss(policy, was[s], hands[s], page, clock, slots[s], hand[s], i, r, past, before, marks, placed, passed);
      }
      OthersSame(was, page);
      forall k | 0 <= k < sets && k != s ensures AllRecall(slots[k], history, placed, passed) {
        RecallElsewhere(was[s], r, was[k], page, hit, past, before, marks, placed, passed);
      }
    }

    /** A touch under LRU. The sets go on holding their most recently touched pages, unless the
        page is the mark of an empty slot and its set is full, or the clock wraps with another
        page in the set. */
    method GetLru(page: u64) returns (hit: bool)
      requires Valid() && policy == Lru
      modifies this, slots, hand
      ensures Valid() && clock == Bump(old(clock)) && home(page) < sets
      ensures history == if page == EMPTY then old(history) else old(history) + [page]
      ensures old(InOrder()) && old(clock) < U64_MAX ==> InOrder()
      ensures old(InOrder() && KeepsMostRecent()) ==>
        (hit <==> if page == EMPTY then old(!Full(slots[home(page)]))
                  else page in MostRecent(old(history), home, home(page), ways))
      ensures old(InOrder() && KeepsMostRecent()) ==>
        (KeepsMostRecent() <==> if page == EMPTY then old(!Full(slots[home(page)]))
                                else old(clock) < U64_MAX || |MostRecent(history, home, home(page), ways)| == 1)
    {
      ghost var was, hands, past, kept := slots[..], hand[..], history, InOrder() && KeepsMostRecent();
      ghost var i, r, ordered, before := 0, [], InOrder(), clock;
      hit, i, r := Get(page);
      OthersSame(was, page);
      if ordered && before < U64_MAX {
        OrderKept(was, hands, page, hit, i, r);
      }
      if kept {
        OwnTouched(was, hands, past, page, hit, i, r);
        OthersKept(was, past, page);
      }
    }

    /** A touch under the clock that finds neither its page nor an empty slot. The page it throws out
        has been touched since the hand last passed it if and only if every page of the set has. */
    method GetClock(page: u64) returns (hit: bool, ghost gone: nat)
      requires Valid() && Remembers() && policy == Clock
      modifies this, slots, hand
      ensures Valid() && Remembers() && home(page) < sets
      ensures !hit && old(Full(slots[home(page)])) ==>
        && old(exists j :: 0 <= j < ways && slots[home(page)][j].page == gone)
        && (gone != page ==> Absent(slots[home(page)], gone))
        && (old(Stirred(gone)) <==> old(forall j :: 0 <= j < ways ==> Stirred(slots[home(page)][j].page)))
    {
      ghost var was: seq<Set>, hands, past, before, marks := slots[..], hand[..], history, placed, passed;
      ghost var i, r;
      hit, i, r := Get(page);
      ghost var s := home(page);
      gone := was[s][i].page;
      if !hit && Full(was[s]) {
        ClockEvicts(was[s], hands[s], page, clock, slots[s], hand[s], i, r, past, before, marks);
      }
    }

    /** The page has been touched since the hand last passed it. */
    ghost predicate Stirred(p: nat)
      reads this`history, this`passed
    {
      p in passed && Since(history, passed[p], p)
    }

    lemma OrderKept(was: seq<Set>, hands: seq<nat>, page: u64, hit: bool, i: nat, r: Set)
      requires Shaped() && |was| == |hands| == sets && home(page) < sets
      requires SetStep(policy, was[home(page)], hands[home(page)], page, clock, slots[home(page)], hand[home(page)],
        hit, i, r)
      requires forall k :: 0 <= k < sets && k != home(page) ==> slots[k] == was[k]
      requires forall k :: 0 <= k < sets ==> Before(was[k], clock)
      ensures InOrder()
    {
      StampsNext(policy, was[home(page)], hands[home(page)], page, clock, slots[home(page)], hand[home(page)], hit, i,
        r);
      assert forall k :: 0 <= k < sets ==> Before(was[k], clock);
    }

    lemma OthersSame(was: seq<Set>, page: u64)
      requires Shaped() && |was| == sets && home(page) < sets
      requires slots[..] == was[home(page) := slots[home(page)]]
      ensures forall k :: 0 <= k < sets && k != home(page) ==> slots[k] == was[k]
    {
      assert forall k :: 0 <= k < sets && k != home(page) ==> slots[..][k] == was[k];
    }

    /** The set the page maps to. */
    lemma OwnTouched(was: seq<Set>, hands: seq<nat>, past: seq<nat>, page: u64, hit: bool, i: nat, r: Set)
      requires Valid() && |was| == |hands| == sets && home(page) < sets && |was[home(page)]| == ways
      requires history == if page == EMPTY then past else past + [page]
      requires Ranked(was[home(page)], MostRecent(past, home, home(page), ways))
      requires clock == 0 || Before(was[home(page)], clock)
      requires SetStep(Lru, was[home(page)], hands[home(page)], page, clock, slots[home(page)], hand[home(page)], hit,
        i, r)
      ensures hit <==>
        if page == EMPTY then !Full(was[home(page)]) else page in MostRecent(past, home, home(page), ways)
      ensures Ranked(slots[home(page)], MostRecent(history, home, home(page), ways)) <==>
        if page == EMPTY then !Full(was[home(page)])
        else clock > 0 || |MostRecent(history, home, home(page), ways)| == 1
    {
      var own := home(page);
      MostRecentNext(past, home, page, own, ways);
      LruTouched(was[own], hands[own], MostRecent(past, home, own, ways), page, clock, slots[own], hand[own], hit, i,
        r);
    }

    /** The sets the page does not map to. */
    lemma OthersKept(was: seq<Set>, past: seq<nat>, page: u64)
      requires Valid() && |was| == sets && history == (if page == EMPTY then past else past + [page])
      requires forall k :: 0 <= k < sets ==> Ranked(was[k], MostRecent(past, home, k, ways))
      requires forall k :: 0 <= k < sets && k != home(page) ==> slots[k] == was[k]
      ensures home(page) < sets ==>
        (KeepsMostRecent() <==> Ranked(slots[home(page)], MostRecent(history, home, home(page), ways)))
    {
      forall k | 0 <= k < sets && k != home(page) ensures Ranked(slots[k], MostRecent(history, home, k, ways)) {
        MostRecentNext(past, home, page, k, ways);
        assert Ranked(was[k], MostRecent(past, home, k, ways));
      }
    }
  }

  /** One touch of the page's own set, whatever the page and the time. */
  lemma LruTouched(s: Set, h: nat, o: seq<nat>, page: nat, t: u64, s': Set, h': nat, hit: bool, i: nat, r: Set)
    requires Ranked(s, o) && SetStep(Lru, s, h, page, t, s', h', hit, i, r) && (t == 0 || Before(s, t))
    ensures page == EMPTY ==> (Ranked(s', o) <==> !Full(s)) && (hit <==> !Full(s))
    ensures page != EMPTY ==> (hit <==> page in o)
    ensures page != EMPTY ==>
      (Ranked(s', Take([page] + Without(o, page), |s|)) <==> t > 0 || |Take([page] + Without(o, page), |s|)| == 1)
  {
    RankedPages(s, o);
    if page == EMPTY {
      LruStepEmpty(s, h, o, t, s', h', hit, i, r);
    } else if t == 0 {
      LruStepWrapped(s, h, o, page, s', h', hit, i, r, Take([page] + Without(o, page), |s|));
    } else {
      LruStep(s, h, o, page, t, s', h', hit, i, r);
    }
  }

  /** A ranked set holds the pages of its list and no others. */
  lemma RankedPages(s: Set, o: seq<nat>)
    requires Ranked(s, o)
    ensures forall p :: p != EMPTY ==> (p in o <==> !Absent(s, p))
  {
    var at :| Tracks(s, o, at);
    forall p | p != EMPTY ensures p in o <==> !Absent(s, p) {
      TrackedPage(s, o, at, p);
    }
  }

  lemma TrackedPage(s: Set, o: seq<nat>, at: seq<nat>, p: nat)
    requires Tracks(s, o, at) && p != EMPTY
    ensures p in o <==> !Absent(s, p)
  {
    if p in o {
      var k :| 0 <= k < |o| && o[k] == p;
      assert s[at[k]].page == p;
    }
    if !Absent(s, p) {
      var i :| 0 <= i < |s| && s[i].page == p;
      assert i in at;
    }
  }

  /** No touch of the number that marks an empty slot, among the first n, comes when its set is
      full. */
  ghost predicate Harmless(pages: seq<u64>, home: nat -> nat, ways: nat, n: nat) {
    forall k {:trigger pages[..k]} :: 0 <= k < |pages| && k < n && pages[k] == EMPTY ==>
      |MostRecent(Without(pages[..k], EMPTY), home, home(EMPTY), ways)| < ways
  }

  /** After any history of touches, every set of an LRU cache holds exactly the most recently
      touched distinct pages that map to it, as many as it has ways. A touch of the number that
      marks an empty slot puts an end to it if and only if its set is full. */
  method Replay(ways: nat, hash: Hash, pages: seq<u64>) returns (c: Cache)
    requires 0 < ways <= CAPACITY
    ensures c.Valid() && c.ways == ways && fresh(c) && c.history == Without(pages, EMPTY)
    ensures |pages| <= U64_MAX && Harmless(pages, c.home, ways, |pages|) ==>
      forall s, p :: 0 <= s < c.sets && p != EMPTY ==>
        (!Absent(c.slots[s], p) <==> p in MostRecent(Without(pages, EMPTY), c.home, s, ways))
    ensures 0 < |pages| <= U64_MAX && Harmless(pages, c.home, ways, |pages| - 1) ==>
      (c.KeepsMostRecent() <==> Harmless(pages, c.home, ways, |pages|))
  {
    c := new Cache(ways, hash, Lru);
    for k := 0 to |pages|
      invariant fresh(c) && fresh(c.slots) && fresh(c.hand) && Replayed(c, ways, pages, k)
    {
      ReplayOne(c, ways, pages, k);
    }
    assert pages[..|pages|] == pages;
    if |pages| <= U64_MAX && Harmless(pages, c.home, ways, |pages|) {
      HoldsExactly(c);
    }
  }

  /** An LRU cache after the first k touches of a history. */
  ghost predicate Replayed(c: Cache, ways: nat, pages: seq<u64>, k: nat)
    reads c, c.slots, c.hand
  {
    && c.Valid() && c.ways == ways && c.policy == Lru && k <= |pages|
    && c.history == Without(pages[..k], EMPTY) && (k <= U64_MAX ==> c.clock == k)
    && (|pages| <= U64_MAX && Harmless(pages, c.home, ways, if k == 0 then 0 else k - 1) ==>
          c.InOrder() && (c.KeepsMostRecent() <==> Harmless(pages, c.home, ways, k)))
  }

  method ReplayOne(c: Cache, ways: nat, pages: seq<u64>, k: nat)
    requires Replayed(c, ways, pages, k) && k < |pages|
    modifies c, c.slots, c.hand
    ensures Replayed(c, ways, pages, k + 1)
  {
    assert pages[..k + 1] == pages[..k] + [pages[k]];
    WithoutNext(pages[..k], pages[k], EMPTY);
    FullIff(c, pages, k);
    var _ := c.GetLru(pages[k]);
  }

  lemma HoldsExactly(c: Cache)
    requires c.Valid() && c.KeepsMostRecent()
    ensures forall s, p :: 0 <= s < c.sets && p != EMPTY ==>
      (!Absent(c.slots[s], p) <==> p in MostRecent(c.history, c.home, s, c.ways))
  {
    forall s | 0 <= s < c.sets
      ensures forall p :: p != EMPTY ==>
        (!Absent(c.slots[s], p) <==> p in MostRecent(c.history, c.home, s, c.ways))
    {
      RankedPages(c.slots[s], MostRecent(c.history, c.home, s, c.ways));
    }
  }

  lemma {:induction false} WithoutNext(o: seq<nat>, p: nat, q: nat)
    ensures Without(o + [p], q) == Without(o, q) + if p == q then [] else [p]
  {
    if |o| == 0 {
      assert (o + [p])[1..] == [];
    } else {
      WithoutNext(o[1..], p, q);
      TailOf(o, p);
      Joined(if o[0] == q then [] else [o[0]], Without(o[1..], q), if p == q then [] else [p]);
    }
  }

  lemma TailOf(o: seq<nat>, p: nat)
    requires |o| > 0
    ensures (o + [p])[0] == o[0] && (o + [p])[1..] == o[1..] + [p]
  {
  }

  lemma Joined(a: seq<nat>, b: seq<nat>, c: seq<nat>)
    ensures a + (b + c) == (a + b) + c
  {
  }

  lemma FullIff(c: Cache, pages: seq<u64>, k: nat)
    requires c.Valid() && k < |pages| && c.history == Without(pages[..k], EMPTY)
    ensures c.KeepsMostRecent() && pages[k] == EMPTY && Harmless(pages, c.home, c.ways, k) && c.home(EMPTY) < c.sets ==>
      (!Full(c.slots[c.home(EMPTY)]) <==> Harmless(pages, c.home, c.ways, k + 1))
    ensures pages[k] != EMPTY ==>
      (Harmless(pages, c.home, c.ways, k + 1) <==> Harmless(pages, c.home, c.ways, k))
  {
    assert pages[..k] == pages[..k];
    if c.KeepsMostRecent() && c.home(EMPTY) < c.sets {
      RankedCount(c.slots[c.home(EMPTY)], MostRecent(c.history, c.home, c.home(EMPTY), c.ways));
    }
  }

  /** After any history of touches, under any policy, a page is promoted exactly when it has been
      touched again since it was placed, and referenced exactly when it has been since it was placed
      or the hand last passed it. */
  method ReplayAny(ways: nat, hash: Hash, policy: Policy, pages: seq<u64>) returns (c: Cache)
    requires 0 < ways <= CAPACITY
    ensures c.Valid() && c.Remembers() && c.ways == ways && c.policy == policy && c.history == Without(pages, EMPTY)
  {
    c := new Cache(ways, hash, policy);
    for k := 0 to |pages|
      invariant fresh(c) && fresh(c.slots) && fresh(c.hand) && c.Valid() && c.Remembers()
      invariant c.ways == ways && c.policy == policy && c.history == Without(pages[..k], EMPTY)
    {
      assert pages[..k + 1] == pages[..k] + [pages[k]];
      WithoutNext(pages[..k], pages[k], EMPTY);
      var _, _, _ := c.Get(pages[k]);
    }
    assert pages[..|pages|] == pages;
  }

  // Where LRU comes to an end

  /** A set of one slot, filled with a page that shares it, and a touch of the number that marks an
      empty slot. */
  method EmptyMarkExample(page: u64) returns (c: Cache)
    requires page % CAPACITY == CAPACITY - 1 && page != EMPTY
    ensures c.Valid() && c.policy == Lru && c.history == [page] && !c.KeepsMostRecent()
  {
    c := new Cache(1, Low, Lru);
    LowIndex(page);
    LowIndex(U64_MAX);
    var _ := c.GetLru(page);
    OneRecent(c.home, page);
    RankedCount(c.slots[c.home(page)], MostRecent(c.history, c.home, c.home(page), 1));
    var _ := c.GetLru(U64_MAX);
  }

  lemma LowIndex(page: nat)
    ensures IndexOf(Low, page, CAPACITY) == page % CAPACITY
  {
    Pow2Values();
    Pow2Sum(8, 5);
    AndLow(page, 13);
  }

  lemma OneRecent(home: nat -> nat, page: nat)
    ensures MostRecent([page], home, home(page), 1) == [page]
  {
    assert [page][..0] == [] && Only([], home, home(page)) == [];
    assert Only([page], home, home(page)) == [page];
    assert Recency([]) == [];
  }

  /** Two pages in a set, and the clock has wrapped: the page touched last, at stamp zero, counts as
      the older of the two. */
  lemma WrappedStampExample(p: nat, q: nat, s: Set)
    requires p != q && p != EMPTY && q != EMPTY
    requires s == [Slot(p, 5, false, false), Slot(q, 7, false, false)]
    ensures Ranked(s, [q, p]) && SetStep(Lru, s, 0, p, 0, s[0 := Promoted(s[0], 0)], 0, true, 0, s)
    ensures !Ranked(s[0 := Promoted(s[0], 0)], [p, q])
  {
    TwoRanked(s, p, q);
    ZeroFirst(s[0 := Promoted(s[0], 0)], p, q);
  }

  lemma ZeroFirst(s: Set, p: nat, q: nat)
    requires |s| > 0 && s[0].page == p != EMPTY && s[0].stamp == 0 && p != q
    ensures !Ranked(s, [p, q])
  {
    if Ranked(s, [p, q]) {
      ZeroIsLast(s, [p, q], 0);
    }
  }

  lemma TwoRanked(s: Set, p: nat, q: nat)
    requires |s| == 2 && s[0].page == p != EMPTY && s[1].page == q != EMPTY && p != q && s[0].stamp < s[1].stamp
    ensures Ranked(s, [q, p])
  {
    var at := [1, 0];
    assert at[0] == 1 && at[1] == 0;
    assert Tracks(s, [q, p], at);
  }

  // Probation

  /** A page that has been promoted. */
  ghost predicate Kept(x: Slot) {
    x.resident && x.page != EMPTY
  }

  ghost predicate AllKept(s: Set) {
    forall i :: 0 <= i < |s| ==> Kept(s[i])
  }

  /** Every promoted page is as it was, and there is still a slot without one. */
  ghost predicate Spared(s: Set, s': Set) {
    |s| == |s'| && !AllKept(s') && forall i :: 0 <= i < |s| && Kept(s[i]) ==> s'[i] == s[i]
  }

  /** Under probation a miss takes a promoted page exactly when the set is full, every slot with a
      stamp short of the last one is promoted, and so is the slot that then counts as the oldest.
      While no stamp is the last one, that is when every slot holds a promoted page. */
  lemma ProbationMiss(s: Set, h: nat, page: nat, t: u64, s': Set, h': nat, i: nat, r: Set)
    requires SetStep(Probation, s, h, page, t, s', h', false, i, r) && Stamped(s)
    ensures Kept(s[i]) <==>
      Full(s) && !Expendable(s) && (s[0].resident || exists k :: 0 <= k < |s| && s[k].stamp < U64_MAX)
    ensures Before(s, U64_MAX) ==> (Kept(s[i]) <==> AllKept(s))
    ensures !Kept(s[i]) ==> Spared(s, s')
  {
    assert !Kept(s'[i]);
    if Full(s) && !Expendable(s) {
      NoneExpendable(s, i);
    }
  }

  lemma NoneExpendable(s: Set, v: nat)
    requires Full(s) && Stamped(s) && !Expendable(s) && IsOldest(s, v)
    ensures s[v].resident <==> s[0].resident || exists k :: 0 <= k < |s| && s[k].stamp < U64_MAX
    ensures Before(s, U64_MAX) ==> AllKept(s)
  {
    if !(exists k :: 0 <= k < |s| && s[k].stamp < U64_MAX) {
      assert s[v].stamp == U64_MAX == s[0].stamp;
    }
  }

  /** In a full set probation takes a page that has been touched again since it was placed if and
      only if there is no other. */
  lemma ProbationEvicts(s: Set, h: nat, page: nat, t: u64, s': Set, h': nat, i: nat, r: Set,
      history: seq<nat>, placed: map<nat, nat>, passed: map<nat, nat>)
    requires SetStep(Probation, s, h, page, t, s', h', false, i, r) && Full(s) && Before(s, U64_MAX)
    requires AllRecall(s, history, placed, passed)
    ensures forall j :: 0 <= j < |s| ==> s[j].page in placed
    ensures Since(history, placed[s[i].page], s[i].page) <==>
      forall j :: 0 <= j < |s| ==> Since(history, placed[s[j].page], s[j].page)
  {
    assert forall j :: 0 <= j < |s| ==> Recalls(s[j], history, placed, passed);
    ProbationMiss(s, h, page, t, s', h', i, r);
  }

  /** A set whose one slot on probation has the last stamp: a miss takes the promoted page. */
  lemma LastStampExample()
    ensures
      var s := [Slot(1, 5, false, true), Slot(2, U64_MAX, false, false)];
      && SetStep(Probation, s, 0, 3, 0, s[0 := Placed(3, 0)], 0, false, 0, s)
      && Kept(s[0]) && !AllKept(s)
  {
    var s := [Slot(1, 5, false, true), Slot(2, U64_MAX, false, false)];
    assert Full(s) && !Expendable(s) && IsOldest(s, 0) && Absent(s, 3);
    assert !Kept(s[1]);
  }

  /** No slot of the cache has the last stamp, nor will any have it in the next n touches. */
  ghost predicate FarFromWrapping(c: Cache, n: nat)
    requires c.Valid()
    reads c, c.slots, c.hand
  {
    c.clock + n < U64_MAX && forall s :: 0 <= s < c.sets ==> Before(c.slots[s], U64_MAX)
  }

  /** A sweep of distinct pages that are not in the cache misses every time and, short of a clock
      that wraps, takes no promoted page from any set that had a slot to spare. */
  method Sweep(c: Cache, pages: seq<u64>)
    requires c.Valid() && c.policy == Probation && Distinct(pages)
    requires forall k, s :: 0 <= k < |pages| && 0 <= s < c.sets ==> Absent(c.slots[s], pages[k])
    modifies c, c.slots, c.hand
    ensures c.Valid() && c.hits == old(c.hits) && c.misses == Bumps(old(c.misses), |pages|)
    ensures old(FarFromWrapping(c, |pages|)) ==>
      forall s :: 0 <= s < c.sets && !AllKept(old(c.slots[s])) ==> Spared(old(c.slots[s]), c.slots[s])
  {
    ghost var was, far := c.slots[..], FarFromWrapping(c, |pages|);
    for n := 0 to |pages|
      invariant c.Valid() && c.hits == old(c.hits) && c.misses == Bumps(old(c.misses), n)
      invariant forall k, s :: n <= k < |pages| && 0 <= s < c.sets ==> Absent(c.slots[s], pages[k])
      invariant far ==> FarFromWrapping(c, |pages| - n) && AllSpared(c, was)
    {
      SweepOne(c, pages, n, was);
    }
  }

  function Bumps(m: nat, n: nat): nat {
    if n == 0 then m else Bump(Bumps(m, n - 1))
  }

  ghost predicate AllSpared(c: Cache, was: seq<Set>)
    requires c.Valid()
    reads c, c.slots, c.hand
  {
    |was| == c.sets && forall s :: 0 <= s < c.sets && !AllKept(was[s]) ==> Spared(was[s], c.slots[s])
  }

  method SweepOne(c: Cache, pages: seq<u64>, n: nat, ghost was: seq<Set>)
    requires c.Valid() && c.policy == Probation && Distinct(pages) && n < |pages|
    requires forall k, s :: n <= k < |pages| && 0 <= s < c.sets ==> Absent(c.slots[s], pages[k])
    modifies c, c.slots, c.hand
    ensures c.Valid() && c.hits == old(c.hits) && c.misses == Bump(old(c.misses))
    ensures forall k, s :: n < k < |pages| && 0 <= s < c.sets ==> Absent(c.slots[s], pages[k])
    ensures old(FarFromWrapping(c, |pages| - n) && AllSpared(c, was)) ==>
      FarFromWrapping(c, |pages| - n - 1) && AllSpared(c, was)
  {
    ghost var prev, hands, page := c.slots[..], c.hand[..], pages[n];
    ghost var far := FarFromWrapping(c, |pages| - n) && AllSpared(c, was);
    var hit, i, r := c.Get(pages[n]);
    ghost var s := c.home(page);
    assert Absent(prev[s], page);
    ProbationMiss(prev[s], hands[s], page, c.clock, c.slots[s], c.hand[s], i, r);
    StampsNext(Probation, prev[s], hands[s], page, c.clock, c.slots[s], c.hand[s], hit, i, r);
    forall q | 0 <= q < c.sets && q != s ensures c.slots[q] == prev[q] {
      assert c.slots[..][q] == c.slots[q];
    }
    forall k, q | n < k < |pages| && 0 <= q < c.sets ensures Absent(c.slots[q], pages[k]) {
      assert Absent(prev[q], pages[k]);
    }
    if far {
      forall q | 0 <= q < c.sets && !AllKept(was[q]) ensures Spared(was[q], c.slots[q]) {
        assert Spared(was[q], prev[q]);
      }
    }
  }

  /** The page, and beside it a slot to spare: in a set that holds the page, another slot without a
      promoted page; in one that does not, two of them. */
  ghost predicate SpareBeside(s: Set, page: nat) {
    exists j, k :: 0 <= j < |s| && 0 <= k < |s| && j != k && Beside(s, page, j, k)
  }

  ghost predicate Beside(s: Set, page: nat, j: nat, k: nat)
    requires j < |s| && k < |s|
  {
    !Kept(s[j]) && s[j].page != page && (s[k].page == page || !Kept(s[k]))
  }

  /** The first touch leaves the page in a slot, and another slot without a promoted page. */
  lemma FirstTouch(s: Set, h: nat, page: nat, t: u64, s': Set, h': nat, hit: bool, i: nat, r: Set)
    requires SetStep(Probation, s, h, page, t, s', h', hit, i, r) && Before(s, U64_MAX)
    requires page != EMPTY && SpareBeside(s, page) && DistinctPages(s)
    ensures s'[i].page == page && exists j :: 0 <= j < |s| && j != i && !Kept(s'[j])
  {
    var j, k :| 0 <= j < |s| && 0 <= k < |s| && j != k && Beside(s, page, j, k);
    if hit {
      assert !Kept(s'[j]);
    } else {
      ProbationMiss(s, h, page, t, s', h', i, r);
      assert !AllKept(s) && !Kept(s[k]);
      assert !Kept(s'[if i == j then k else j]);
    }
  }

  /** The second promotes it. */
  lemma SecondTouch(s: Set, h: nat, page: nat, t: u64, s': Set, h': nat, hit: bool, i: nat, r: Set, was: nat)
    requires SetStep(Probation, s, h, page, t, s', h', hit, i, r) && DistinctPages(s) && page != EMPTY
    requires was < |s| && s[was].page == page && exists j :: 0 <= j < |s| && j != was && !Kept(s[j])
    ensures hit && i == was && Kept(s'[was]) && s'[was].page == page && !AllKept(s')
  {
    var j :| 0 <= j < |s| && j != was && !Kept(s[j]);
    assert i == was;
    assert !Kept(s'[j]);
  }

  /** One touch of a page, and what is left for pages that are still to come. */
  method TouchOnce(c: Cache, page: u64, pages: seq<u64>, ghost n: nat) returns (hit: bool, ghost i: nat, ghost r: Set)
    requires c.Valid() && page !in pages
    requires forall k, s :: 0 <= k < |pages| && 0 <= s < c.sets ==> Absent(c.slots[s], pages[k])
    modifies c, c.slots, c.hand
    ensures c.Valid() && c.home(page) < c.sets
    ensures forall k, s :: 0 <= k < |pages| && 0 <= s < c.sets ==> Absent(c.slots[s], pages[k])
    ensures SetStep(c.policy, old(c.slots[c.home(page)]), old(c.hand[c.home(page)]), page, c.clock,
                    c.slots[c.home(page)], c.hand[c.home(page)], hit, i, r)
    ensures old(FarFromWrapping(c, n + 1)) ==> FarFromWrapping(c, n)
  {
    ghost var prev, hands, far := c.slots[..], c.hand[..], FarFromWrapping(c, n + 1);
    hit, i, r := c.Get(page);
    ghost var s := c.home(page);
    StampsNext(c.policy, prev[s], hands[s], page, c.clock, c.slots[s], c.hand[s], hit, i, r);
    c.OthersSame(prev, page);
    forall k, q | 0 <= k < |pages| && 0 <= q < c.sets ensures Absent(c.slots[q], pages[k]) {
      assert Absent(prev[q], pages[k]) && pages[k] != page;
    }
  }

  method TouchTwice(c: Cache, page: u64, pages: seq<u64>, ghost keep: bool) returns (ghost at: nat)
    requires c.Valid() && c.policy == Probation && page != EMPTY && page !in pages && c.home(page) < c.sets
    requires forall k, s :: 0 <= k < |pages| && 0 <= s < c.sets ==> Absent(c.slots[s], pages[k])
    requires keep ==> FarFromWrapping(c, |pages| + 3) && SpareBeside(c.slots[c.home(page)], page)
    modifies c, c.slots, c.hand
    ensures c.Valid()
    ensures forall k, s :: 0 <= k < |pages| && 0 <= s < c.sets ==> Absent(c.slots[s], pages[k])
    ensures keep ==> FarFromWrapping(c, |pages| + 1) && at < c.ways
    ensures keep ==>
      Kept(c.slots[c.home(page)][at]) && c.slots[c.home(page)][at].page == page && !AllKept(c.slots[c.home(page)])
  {
    ghost var s := c.home(page);
    ghost var s0, h0 := c.slots[s], c.hand[s];
    var hit, i, r := TouchOnce(c, page, pages, |pages| + 2);
    ghost var s1, h1 := c.slots[s], c.hand[s];
    if keep {
      FirstTouch(s0, h0, page, c.clock, s1, h1, hit, i, r);
    }
    at := i;
    hit, i, r := TouchOnce(c, page, pages, |pages| + 1);
    if keep {
      SecondTouch(s1, h1, page, c.clock, c.slots[s], c.hand[s], hit, i, r, at);
    }
  }

  /** A page touched twice outlasts a sweep of any length, if its set had a slot to
      spare beside it and no stamp wraps. */
  method TwiceThenSweep(c: Cache, page: u64, pages: seq<u64>) returns (hit: bool)
    requires c.Valid() && c.policy == Probation && page != EMPTY && page !in pages && Distinct(pages)
    requires forall k, s :: 0 <= k < |pages| && 0 <= s < c.sets ==> Absent(c.slots[s], pages[k])
    modifies c, c.slots, c.hand
    ensures c.Valid() && c.home(page) < c.sets
    ensures old(FarFromWrapping(c, |pages| + 3) && SpareBeside(c.slots[c.home(page)], page)) ==> hit
  {
    assert c.home(page) == IndexOf(c.hash, page, c.sets);
    ghost var keep := FarFromWrapping(c, |pages| + 3) && SpareBeside(c.slots[c.home(page)], page);
    ghost var was := TouchTwice(c, page, pages, keep);
    ghost var before := c.slots[c.home(page)];
    Sweep(c, pages);
    assert keep ==> c.slots[c.home(page)][was] == before[was];
    ghost var i, r;
    hit, i, r := c.Get(page);
  }
}
