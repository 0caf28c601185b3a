/**
 Recency: the order in which pages were last touched, and the slots of one set whose stamps give
 that order.
 */
module CachePolicy {
  import opened Bits

  const EMPTY: nat := U64_MAX

  datatype Slot = Slot(page: nat, stamp: nat, referenced: bool, resident: bool)

  type Set = seq<Slot>

  // Recency

  function Without(o: seq<nat>, p: nat): (r: seq<nat>) {
    if |o| == 0 then [] else (if o[0] == p then [] else [o[0]]) + Without(o[1..], p)
  }

  function Take(o: seq<nat>, n: nat): (r: seq<nat>) {
    if |o| <= n then o else o[..n]
  }

  /** The distinct pages of a history of touches, the most recent first. */
  function Recency(history: seq<nat>): (o: seq<nat>) {
    if |history| == 0 then []
    else
      var p := history[|history| - 1];
      [p] + Without(Recency(history[..|history| - 1]), p)
  }

  ghost predicate Distinct(o: seq<nat>) {
    forall i, j :: 0 <= i < j < |o| ==> o[i] != o[j]
  }

  lemma {:induction false} WithoutAbsent(o: seq<nat>, p: nat)
    requires p !in o
    ensures Without(o, p) == o
  {
    if |o| != 0 {
      WithoutAbsent(o[1..], p);
    }
  }

  lemma {:induction false} WithoutOne(o: seq<nat>, p: nat, k: nat)
    requires Distinct(o) && k < |o| && o[k] == p
    ensures Without(o, p) == o[..k] + o[k + 1..]
  {
    if k == 0 {
      assert p !in o[1..];
      WithoutAbsent(o[1..], p);
    } else {
      WithoutOne(o[1..], p, k - 1);
      assert o[..k] == [o[0]] + o[1..][..k - 1] && o[1..][k..] == o[k + 1..];
    }
  }

  lemma {:induction false} RecencyDistinct(history: seq<nat>)
    ensures Distinct(Recency(history))
    ensures forall p :: p in Recency(history) <==> p in history
  {
    if |history| != 0 {
      var n := |history| - 1;
      var p, o := history[n], Recency(history[..n]);
      RecencyDistinct(history[..n]);
      assert history == history[..n] + [p];
      TouchDistinct(o, p);
    }
  }

  lemma TouchDistinct(o: seq<nat>, p: nat)
    requires Distinct(o)
    ensures Distinct([p] + Without(o, p))
    ensures forall q :: q in [p] + Without(o, p) <==> q == p || q in o
  {
    if p in o {
      var k :| 0 <= k < |o| && o[k] == p;
      WithoutOne(o, p, k);
      assert o == o[..k] + [p] + o[k + 1..];
    } else {
      WithoutAbsent(o, p);
    }
  }

  /** Keeping only the first w pages loses nothing the first w pages after the next touch need. */
  lemma TouchTaken(o: seq<nat>, p: nat, w: nat)
    requires Distinct(o) && w > 0
    ensures Take([p] + Without(Take(o, w), p), w) == Take([p] + Without(o, p), w)
  {
    if w < |o| {
      if p in o[..w] {
        var k :| 0 <= k < w && o[..w][k] == p;
        WithoutOne(o, p, k);
        WithoutOne(o[..w], p, k);
        CutEarly(o, p, w, k);
      } else if p in o {
        var k :| 0 <= k < |o| && o[k] == p;
        assert forall j :: 0 <= j < w ==> o[j] == o[..w][j];
        WithoutOne(o, p, k);
        WithoutAbsent(o[..w], p);
        CutLate(o, p, w, k);
      } else {
        WithoutAbsent(o, p);
        WithoutAbsent(o[..w], p);
        assert ([p] + o)[..w] == ([p] + o[..w])[..w];
      }
    }
  }

  lemma CutEarly(o: seq<nat>, p: nat, w: nat, k: nat)
    requires k < w < |o|
    ensures Take([p] + (o[..w][..k] + o[..w][k + 1..]), w) == Take([p] + (o[..k] + o[k + 1..]), w)
  {
    assert [p] + (o[..w][..k] + o[..w][k + 1..]) == ([p] + (o[..k] + o[k + 1..]))[..w];
  }

  lemma CutLate(o: seq<nat>, p: nat, w: nat, k: nat)
    requires 0 < w <= k < |o|
    ensures Take([p] + o[..w], w) == Take([p] + (o[..k] + o[k + 1..]), w)
  {
    assert ([p] + o[..w])[..w] == ([p] + (o[..k] + o[k + 1..]))[..w];
  }

  // A set and the order its stamps give it

  /** Distinct numbers below n: all of them exactly when there are n. */
  lemma {:induction false} Pigeons(a: set<nat>, n: nat)
    requires forall x :: x in a ==> x < n
    ensures |a| <= n && (|a| == n <==> forall i: nat :: i < n ==> i in a)
  {
    if n != 0 {
      Pigeons(a - {n - 1}, n - 1);
      if n - 1 in a {
        assert a == (a - {n - 1}) + {n - 1};
      }
    }
  }

  function Members(a: seq<nat>): (r: set<nat>) {
    if |a| == 0 then {} else Members(a[..|a| - 1]) + {a[|a| - 1]}
  }

  lemma {:induction false} MembersOf(a: seq<nat>)
    ensures forall x :: x in Members(a) <==> x in a
  {
    if |a| != 0 {
      MembersOf(a[..|a| - 1]);
      assert a == a[..|a| - 1] + [a[|a| - 1]];
    }
  }

  lemma {:induction false} DistinctSize(a: seq<nat>)
    requires Distinct(a)
    ensures |Members(a)| == |a|
  {
    if |a| != 0 {
      DistinctSize(a[..|a| - 1]);
      MembersOf(a[..|a| - 1]);
    }
  }

  /** Page o[k] is in slot at[k], later pages in o have earlier stamps, and no other slot is used. */
  ghost predicate Tracks(s: Set, o: seq<nat>, at: seq<nat>) {
    && |at| == |o|
    && (forall k :: 0 <= k < |o| ==> at[k] < |s| && s[at[k]].page == o[k] && o[k] != EMPTY)
    && (forall k, l :: 0 <= k < l < |o| ==> s[at[k]].stamp > s[at[l]].stamp)
    && (forall i :: 0 <= i < |s| && s[i].page != EMPTY ==> i in at)
  }

  ghost predicate Ranked(s: Set, o: seq<nat>) {
    Distinct(o) && exists at :: Tracks(s, o, at)
  }

  ghost predicate Before(s: Set, t: nat) {
    forall i :: 0 <= i < |s| ==> s[i].stamp < t
  }

  function Dropped(a: seq<nat>, k: nat): (r: seq<nat>)
    requires k < |a|
    ensures |r| == |a| - 1 && forall l :: 0 <= l < |r| ==> r[l] == a[if l < k then l else l + 1]
  {
    a[..k] + a[k + 1..]
  }

  /** What holds of the slots other than i when page o[k] is in slot at[k]. */
  ghost predicate TracksRest(s: Set, o: seq<nat>, at: seq<nat>, i: nat) {
    && |at| == |o|
    && (forall k :: 0 <= k < |o| ==> at[k] < |s| && at[k] != i && s[at[k]].page == o[k] && o[k] != EMPTY)
    && (forall k, l :: 0 <= k < l < |o| ==> s[at[k]].stamp > s[at[l]].stamp)
    && (forall j :: 0 <= j < |s| && j != i && s[j].page != EMPTY ==> j in at)
  }

  lemma DropTracks(s: Set, o: seq<nat>, at: seq<nat>, k: nat)
    requires Tracks(s, o, at) && k < |o|
    ensures TracksRest(s, Dropped(o, k), Dropped(at, k), at[k])
  {
    forall j | 0 <= j < |s| && j != at[k] && s[j].page != EMPTY ensures j in Dropped(at, k) {
      var l :| 0 <= l < |at| && at[l] == j;
      assert Dropped(at, k)[if l < k then l else l - 1] == j;
    }
  }

  lemma FrontTracks(s: Set, o: seq<nat>, at: seq<nat>, i: nat, x: Slot)
    requires TracksRest(s, o, at, i) && i < |s| && x.page != EMPTY && Before(s, x.stamp)
    ensures Tracks(s[i := x], [x.page] + o, [i] + at)
  {
    FrontStamps(s, o, at, i, x);
    var s', o', at' := s[i := x], [x.page] + o, [i] + at;
    forall k | 0 <= k < |o'| ensures at'[k] < |s'| && s'[at'[k]].page == o'[k] && o'[k] != EMPTY {
      if k > 0 {
        assert o'[k] == o[k - 1] && at'[k] == at[k - 1];
      }
    }
    forall j | 0 <= j < |s'| && s'[j].page != EMPTY ensures j in at' {
      if j != i {
        assert j in at;
      }
    }
  }

  lemma FrontStamps(s: Set, o: seq<nat>, at: seq<nat>, i: nat, x: Slot)
    requires TracksRest(s, o, at, i) && i < |s| && Before(s, x.stamp)
    ensures forall k :: 0 <= k < |at| + 1 ==> ([i] + at)[k] < |s|
    ensures forall k, l :: 0 <= k < l < |at| + 1 ==> s[i := x][([i] + at)[k]].stamp > s[i := x][([i] + at)[l]].stamp
  {
    var s', at' := s[i := x], [i] + at;
    forall k | 0 <= k < |at'| ensures at'[k] < |s| {
      if k > 0 {
        assert at'[k] == at[k - 1];
      }
    }
    forall k, l | 0 <= k < l < |at'| ensures s'[at'[k]].stamp > s'[at'[l]].stamp {
      assert at'[l] == at[l - 1];
      if k > 0 {
        assert at'[k] == at[k - 1];
      }
    }
  }

  lemma TracksCount(s: Set, o: seq<nat>, at: seq<nat>)
    requires Tracks(s, o, at)
    ensures |o| <= |s|
    ensures |o| == |s| <==> forall i :: 0 <= i < |s| ==> s[i].page != EMPTY
  {
    assert Distinct(at);
    DistinctSize(at);
    MembersOf(at);
    Pigeons(Members(at), |s|);
    assert forall i: nat :: i in Members(at) <==> i < |s| && s[i].page != EMPTY;
  }

  lemma RankedBy(s: Set, o: seq<nat>, at: seq<nat>)
    requires Distinct(o) && Tracks(s, o, at)
    ensures Ranked(s, o)
  {
  }

  lemma RankedCount(s: Set, o: seq<nat>)
    requires Ranked(s, o)
    ensures |o| <= |s|
    ensures |o| == |s| <==> forall i :: 0 <= i < |s| ==> s[i].page != EMPTY
  {
    var at :| Tracks(s, o, at);
    TracksCount(s, o, at);
  }

  lemma EmptyRanked(s: Set, o: seq<nat>, i: nat, x: Slot)
    requires Ranked(s, o) && i < |s| && s[i].page == EMPTY != x.page && x.page !in o && Before(s, x.stamp)
    ensures Ranked(s[i := x], [x.page] + o)
  {
    var at :| Tracks(s, o, at);
    FrontTracks(s, o, at, i, x);
    RankedBy(s[i := x], [x.page] + o, [i] + at);
  }

  lemma HitRanked(s: Set, o: seq<nat>, i: nat, x: Slot)
    requires Ranked(s, o) && i < |s| && s[i].page == x.page != EMPTY && Before(s, x.stamp)
    ensures Ranked(s[i := x], [x.page] + Without(o, x.page))
  {
    var at :| Tracks(s, o, at);
    assert i in at;
    var k :| 0 <= k < |at| && at[k] == i;
    TouchDistinct(o, x.page);
    WithoutOne(o, x.page, k);
    DropTracks(s, o, at, k);
    FrontTracks(s, Dropped(o, k), Dropped(at, k), i, x);
    RankedBy(s[i := x], [x.page] + Without(o, x.page), [i] + Dropped(at, k));
  }

  lemma LastIsOldest(s: Set, o: seq<nat>, at: seq<nat>, v: nat)
    requires Tracks(s, o, at) && v < |s| && s[v].page != EMPTY
    requires forall i :: 0 <= i < |s| ==> s[v].stamp <= s[i].stamp
    ensures |o| > 0 && at[|o| - 1] == v
  {
    assert v in at;
    var k :| 0 <= k < |at| && at[k] == v;
  }

  lemma FullRanked(s: Set, o: seq<nat>, v: nat, x: Slot)
    requires Ranked(s, o) && v < |s| && s[v].page != EMPTY && x.page != EMPTY && x.page !in o && Before(s, x.stamp)
    requires forall i :: 0 <= i < |s| ==> s[v].stamp <= s[i].stamp
    ensures |o| > 0 && Ranked(s[v := x], [x.page] + o[..|o| - 1])
  {
    var at :| Tracks(s, o, at);
    LastIsOldest(s, o, at, v);
    ReplaceLast(s, o, at, x);
  }

  lemma ReplaceLast(s: Set, o: seq<nat>, at: seq<nat>, x: Slot)
    requires Tracks(s, o, at) && |o| > 0 && Distinct(o) && x.page != EMPTY && x.page !in o && Before(s, x.stamp)
    ensures Ranked(s[at[|o| - 1] := x], [x.page] + o[..|o| - 1])
  {
    var n := |o| - 1;
    assert Dropped(o, n) == o[..n];
    NewInFront(o, x.page, n);
    assert Tracks(s[at[n] := x], [x.page] + o[..n], [at[n]] + Dropped(at, n)) by {
      DropTracks(s, o, at, n);
      FrontTracks(s, Dropped(o, n), Dropped(at, n), at[n], x);
    }
    RankedBy(s[at[n] := x], [x.page] + o[..n], [at[n]] + Dropped(at, n));
  }

  lemma NewInFront(o: seq<nat>, p: nat, n: nat)
    requires Distinct(o) && p !in o && n <= |o|
    ensures Distinct([p] + o[..n])
  {
  }
}
