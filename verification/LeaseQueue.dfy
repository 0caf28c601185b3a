/**
 Leases as the engine keeps them: a queue of message slots, claims with a deadline and a token,
 and a summary in every segment that lets the search for a message skip it. The theorems about
 tickets range over every run of operations and every behaviour of the clock.
 */
module LeaseQueue {
  import opened Bits
  import opened QueueSlots
  import opened ReadyLeaves

  const MAX_SEGMENTS: nat := 495

  /** The queue page and the segments it names. `ready` holds the summary of each segment. */
  datatype Queue = Queue(head: nat, tail: nat, cursor: nat, floor: u64, slots: Slots, ready: map<nat, u64>,
      pages: Pages)

  /** The state of the pages themselves: whether the checksum and the number on the queue page are
      its own, the segments of which that is not so, and the segments that this transaction already
      has a copy of. */
  datatype Pages = Pages(sealed: bool, loose: set<nat>, own: set<nat>) {
    /** A slot of the segment was written, and segment and queue page sealed. */
    function Closed(seg: nat): Pages {
      Pages(true, loose - {seg}, own + {seg})
    }

    /** The segment was made writable and a slot changed or not, and nothing sealed. The queue page
        is copied every time, the segment only when it is not the transaction's own. */
    function Opened(seg: nat, changed: bool): Pages {
      Pages(false, if changed || seg !in own then loose + {seg} else loose, own + {seg})
    }
  }

  datatype Request =
    | Push
    | Claim(now: u64, duration: u64)
    | Ack(pos: u64, token: u64)
    | Nack(pos: u64, token: u64)
    | Renew(pos: u64, token: u64, now: u64, duration: u64)
    | Commit

  datatype Result = Done | Ticket(pos: nat, token: nat) | NotFound | BadValue | BadLease | FullQueue | Refused

  // What a queue is

  ghost predicate Live(q: Queue, seg: nat) {
    q.head < q.tail && FirstSeg(q.head) <= seg <= LastSeg(q.tail)
  }

  /** The table of slot states. */
  ghost predicate Proper(s: Slot) {
    && s.token <= U64_MAX
    && if s.state == HELD then s.until == 0
       else if s.state == CLAIMED then s.until > 0 && s.token > 0
       else s.state == ACKED && s.until == 0 && s.token > 0
  }

  /** Every live position has a slot in a proper state, every live segment a summary, and the head
      is not acknowledged. */
  ghost predicate Formed(q: Queue) {
    && q.head <= q.tail <= U64_MAX && (q.head < q.tail ==> LastSeg(q.tail) - FirstSeg(q.head) < MAX_SEGMENTS)
    && (forall p :: q.head <= p < q.tail ==> p in q.slots && Proper(q.slots[p]))
    && (forall seg :: Live(q, seg) ==> seg in q.ready)
    && (q.head < q.tail ==> q.slots[q.head].state != ACKED)
  }

  /** Such a queue that ends before the segment whose end wraps. */
  ghost predicate Coherent(q: Queue) {
    Formed(q) && q.tail <= LIMIT
  }

  /** What a commit asks of the cursors. */
  predicate Ordered(q: Queue) {
    q.head <= q.cursor <= q.tail
  }

  /** What a commit asks of the summaries: none is later than what the slots say. */
  ghost predicate Trusted(q: Queue) {
    forall seg {:trigger Live(q, seg)} :: Live(q, seg) ==>
      seg in q.ready && q.ready[seg] <= SegReady(q.slots, seg, q.head, q.tail)
  }

  /** What a commit asks of the pages: the checksum of each covers what it holds, and each names
      itself. */
  ghost predicate Sealed(q: Queue) {
    q.pages.sealed && forall seg {:trigger Live(q, seg)} :: Live(q, seg) ==> seg !in q.pages.loose
  }

  ghost predicate Accepted(q: Queue) {
    Ordered(q) && Trusted(q) && Sealed(q)
  }

  // The search

  /** Claimable, in a segment that the search does not skip. */
  ghost predicate Visible(q: Queue, p: nat, now: u64) {
    Claimable(q.slots, p, now) && p / SEG_SLOTS in q.ready && q.ready[p / SEG_SLOTS] <= now
  }

  ghost predicate IsFirstVisible(q: Queue, now: u64, found: bool, pos: nat) {
    && (found ==> q.head <= pos < q.tail && Visible(q, pos, now))
    && (forall p :: q.head <= p < (if found then pos else q.tail) ==> !Visible(q, p, now))
  }

  /** The search gets to the segment whose end wraps, and is told to skip it. */
  ghost predicate StepsBack(q: Queue, now: u64) {
    && q.head < q.tail && q.tail > LIMIT && LIMIT / SEG_SLOTS in q.ready && q.ready[LIMIT / SEG_SLOTS] > now
    && forall p :: q.head <= p < LIMIT ==> !Visible(q, p, now)
  }

  /** A summary hides no message, at any time, exactly when it does not exceed the readiness of the slots. */
  lemma TrustMeans(q: Queue, seg: nat)
    requires Coherent(q) && Live(q, seg)
    ensures q.ready[seg] <= SegReady(q.slots, seg, q.head, q.tail) <==>
      forall p, now: u64 :: SegLo(seg, q.head) <= p < SegHi(seg, q.tail) && Claimable(q.slots, p, now) ==>
        q.ready[seg] <= now
  {
    var lo, hi := SegLo(seg, q.head), SegHi(seg, q.tail);
    forall p, now: u64 | lo <= p < hi && Claimable(q.slots, p, now)
      ensures SegReady(q.slots, seg, q.head, q.tail) <= now
    {
      ReadyBelow(q.slots, lo, hi, p);
    }
    var least := SegReady(q.slots, seg, q.head, q.tail);
    if q.ready[seg] > least {
      ReadyMeans(q.slots, lo, hi, least);
    }
  }

  lemma Inside(q: Queue, p: nat)
    requires Coherent(q) && q.head <= p < q.tail
    ensures Live(q, p / SEG_SLOTS) && Window(q.head, q.tail)
    ensures SegLo(p / SEG_SLOTS, q.head) <= p < SegHi(p / SEG_SLOTS, q.tail)
  {
    InsideSegment(q.head, q.tail, p);
  }

  /** With summaries a commit accepts, the search finds what the plain walk finds, at any time. */
  lemma SearchIsWalk(q: Queue, now: u64, found: bool, pos: nat)
    requires Coherent(q) && Trusted(q) && IsFirstVisible(q, now, found, pos)
    ensures IsFirstClaimable(q.slots, q.head, q.tail, now, found, pos)
  {
    forall p | q.head <= p < q.tail && Claimable(q.slots, p, now)
      ensures Visible(q, p, now)
    {
      Inside(q, p);
      ReadyBelow(q.slots, SegLo(p / SEG_SLOTS, q.head), SegHi(p / SEG_SLOTS, q.tail), p);
    }
  }

  // The operations, as what they leave and answer

  function Later(a: u64, b: u64): (t: u64)
    ensures t >= a && t >= b && (t == a || t == b)
  {
    if a >= b then a else b
  }

  /** One slot written, the summary of its segment computed again, and both pages sealed. */
  function Written(q: Queue, pos: nat, s: Slot): Queue {
    var slots, seg := q.slots[pos := s], pos / SEG_SLOTS;
    q.(slots := slots, ready := q.ready[seg := SegReady(slots, seg, q.head, q.tail)], pages := q.pages.Closed(seg))
  }

  /** The position a push takes lies in a segment of its own. */
  predicate Opens(q: Queue) {
    q.head == q.tail || q.tail % SEG_SLOTS == 0
  }

  /** The push goes into a segment whose summary says that nothing in it is free. */
  predicate SaysTaken(q: Queue) {
    !Opens(q) && q.tail / SEG_SLOTS in q.ready && q.ready[q.tail / SEG_SLOTS] != 0
  }

  function Pushed(q: Queue): Queue {
    Queue(q.head, Bump(q.tail), q.head, q.floor, q.slots[q.tail := Slot(HELD, 0, 0)],
          if Opens(q) then q.ready[q.tail / SEG_SLOTS := 0] else q.ready, q.pages.Closed(q.tail / SEG_SLOTS))
  }

  predicate HasRoom(q: Queue) {
    q.head == q.tail || q.tail / SEG_SLOTS - FirstSeg(q.head) < MAX_SEGMENTS
  }

  /** Where a run of acknowledged messages ends. */
  function AckedEnd(slots: Slots, p: nat, tail: nat): (e: nat)
    ensures p <= e && (p <= tail ==> e <= tail) && (e < tail ==> !(e in slots && slots[e].state == ACKED))
    ensures forall k :: p <= k < e ==> k in slots && slots[k].state == ACKED
    decreases tail - p
  {
    if p < tail && p in slots && slots[p].state == ACKED then AckedEnd(slots, p + 1, tail) else p
  }

  function Advanced(q: Queue): Queue {
    q.(head := AckedEnd(q.slots, q.head, q.tail))
  }

  /** The ticket is good: the message is claimed, and with this token. */
  predicate Holds(q: Queue, pos: nat, token: nat) {
    q.head <= pos < q.tail && pos in q.slots && q.slots[pos].state == CLAIMED && q.slots[pos].token == token
  }

  function Taken(q: Queue, pos: nat, now: u64, until: u64): Queue
    requires pos in q.slots
  {
    Written(q, pos, Slot(CLAIMED, until, q.slots[pos].token + 1)).(
      cursor := if pos + 1 > q.cursor then pos + 1 else q.cursor, floor := now)
  }

  /** What a claim leaves that is refused for its deadline: the token has gone up, in pages that
      are not sealed. */
  function Raised(q: Queue, pos: nat): Queue
    requires pos in q.slots
  {
    q.(slots := q.slots[pos := q.slots[pos].(token := q.slots[pos].token + 1)],
       pages := q.pages.Opened(pos / SEG_SLOTS, true))
  }

  /** What a renewal leaves that is refused for its deadline. */
  function Touched(q: Queue, pos: nat): Queue {
    q.(pages := q.pages.Opened(pos / SEG_SLOTS, false))
  }

  ghost predicate ClaimAt(q: Queue, pos: nat, now: u64, duration: u64, q': Queue, r: Result) {
    && q.head <= pos < q.tail && pos in q.slots
    && if q.slots[pos].token == U64_MAX then r == BadValue && q' == q
       else if now + duration > U64_MAX then r == BadValue && q' == Raised(q, pos)
       else r == Ticket(pos, q.slots[pos].token + 1) && q' == Taken(q, pos, now, now + duration)
  }

  ghost predicate ClaimStep(q: Queue, now: u64, duration: u64, q': Queue, r: Result) {
    if duration == 0 then r == BadValue && q' == q
    else
      || (IsFirstVisible(q, now, false, 0) && r == NotFound && q' == q)
      || exists pos :: IsFirstVisible(q, now, true, pos) && ClaimAt(q, pos, now, duration, q', r)
  }

  ghost predicate Step(q: Queue, op: Request, q': Queue, r: Result) {
    match op
    case Push => if HasRoom(q) then r == Done && q' == Pushed(q) else r == FullQueue && q' == q
    case Claim(now, duration) => ClaimStep(q, Later(now, q.floor), duration, q', r)
    case Ack(pos, token) =>
      if Holds(q, pos, token) then r == Done && q' == Advanced(Written(q, pos, Slot(ACKED, 0, token)))
      else r == BadLease && q' == q
    case Nack(pos, token) =>
      if q.head <= pos < q.tail && pos in q.slots && q.slots[pos].token == U64_MAX then r == BadValue && q' == q
      else if !Holds(q, pos, token) then r == BadLease && q' == q
      else r == Done && q' == Written(q, pos, Slot(HELD, 0, token + 1))
    case Renew(pos, token, now, duration) =>
      if duration == 0 then r == BadValue && q' == q
      else if !Holds(q, pos, token) then r == BadLease && q' == q
      else if Later(now, q.floor) + duration > U64_MAX then r == BadValue && q' == Touched(q, pos)
      else
        && r == Done
        && q' == Written(q, pos, Slot(CLAIMED, Later(now, q.floor) + duration, token)).(floor := Later(now, q.floor))
    case Commit =>
      if Accepted(q) then r == Done && q' == q.(pages := q.pages.(own := {})) else r == Refused && q' == q
  }

  // One slot written

  lemma LiveWindow(q: Queue)
    requires Coherent(q)
    ensures Window(q.head, q.tail)
  {
  }

  lemma WrittenTrusted(q: Queue, pos: nat, s: Slot)
    requires Coherent(q) && Trusted(q) && q.head <= pos < q.tail
    ensures Trusted(Written(q, pos, s))
  {
    var w := Written(q, pos, s);
    forall seg | Live(w, seg) && seg != pos / SEG_SLOTS
      ensures seg in w.ready && w.ready[seg] <= SegReady(w.slots, seg, q.head, q.tail)
    {
      assert Live(q, seg);
      OtherSegment(q, pos, s, seg);
    }
  }

  lemma OtherSegment(q: Queue, pos: nat, s: Slot, seg: nat)
    requires Coherent(q) && Live(q, seg) && seg != pos / SEG_SLOTS && q.head <= pos < q.tail
    ensures SegReady(q.slots[pos := s], seg, q.head, q.tail) == SegReady(q.slots, seg, q.head, q.tail)
  {
    LiveWindow(q);
    OutsideSegment(q.head, q.tail, pos, seg);
    ReadyChanged(q.slots, SegLo(seg, q.head), SegHi(seg, q.tail), pos, s);
  }

  lemma WrittenCoherent(q: Queue, pos: nat, s: Slot)
    requires Coherent(q) && q.head <= pos < q.tail && Proper(s) && s.state != ACKED
    ensures Coherent(Written(q, pos, s))
  {
    assert forall seg :: Live(Written(q, pos, s), seg) ==> Live(q, seg);
  }

  /** What making the pages writable did to them does not outlast the seal. */
  lemma TouchedWritten(q: Queue, pos: nat, s: Slot)
    ensures Written(Touched(q, pos), pos, s) == Written(q, pos, s)
  {
    ClosedAgain(q.pages, pos / SEG_SLOTS, false);
  }

  lemma ClosedAgain(p: Pages, seg: nat, changed: bool)
    ensures p.Opened(seg, changed).Closed(seg) == p.Closed(seg)
  {
    assert p.loose + {seg} - {seg} == p.loose - {seg};
    assert p.own + {seg} + {seg} == p.own + {seg};
  }

  lemma TouchedRaised(q: Queue, pos: nat)
    requires pos in q.slots
    ensures q.pages.Opened(pos / SEG_SLOTS, false).loose + {pos / SEG_SLOTS}
      == q.pages.Opened(pos / SEG_SLOTS, true).loose
    ensures forall s :: Written(Raised(q, pos), pos, s) == Written(q, pos, s)
  {
    ClosedAgain(q.pages, pos / SEG_SLOTS, true);
    forall s ensures Written(Raised(q, pos), pos, s) == Written(q, pos, s) {
      assert Raised(q, pos).slots[pos := s] == q.slots[pos := s];
    }
  }

  lemma SameCoherence(q: Queue, cursor: nat, floor: u64, pages: Pages)
    requires Coherent(q)
    ensures Coherent(q.(cursor := cursor, floor := floor, pages := pages))
  {
    assert forall seg :: Live(q.(cursor := cursor, floor := floor, pages := pages), seg) <==> Live(q, seg);
  }

  /** Raising a token changes no summary. */
  lemma RaisedKeeps(q: Queue, pos: nat)
    requires Coherent(q) && q.head <= pos < q.tail && q.slots[pos].token < U64_MAX && q.slots[pos].state != ACKED
    ensures Coherent(Raised(q, pos)) && (Trusted(Raised(q, pos)) <==> Trusted(q))
  {
    var w := Raised(q, pos);
    assert forall seg :: Live(w, seg) <==> Live(q, seg);
    forall seg | Live(q, seg)
      ensures SegReady(w.slots, seg, q.head, q.tail) == SegReady(q.slots, seg, q.head, q.tail)
    {
      ReadySame(w.slots, q.slots, SegLo(seg, q.head), SegHi(seg, q.tail));
    }
  }

  // The head

  /** Moving the head on never makes a summary too late. */
  lemma AdvancedTrusted(q: Queue, head: nat)
    requires q.head <= head <= q.tail <= LIMIT && Trusted(q)
    ensures Trusted(q.(head := head))
  {
    var w := q.(head := head);
    forall seg | Live(w, seg)
      ensures seg in q.ready && q.ready[seg] <= SegReady(q.slots, seg, head, q.tail)
    {
      assert Live(q, seg);
      ReadyShrinks(q.slots, SegLo(seg, q.head), SegLo(seg, head), SegHi(seg, q.tail));
    }
  }

  lemma ReadyShrinks(slots: Slots, lo: nat, mid: nat, hi: nat)
    requires lo <= mid
    ensures Ready(slots, lo, hi) <= Ready(slots, mid, hi)
  {
    if mid <= hi {
      ReadySplit(slots, lo, mid, hi);
    }
  }

  lemma AckedCoherent(q: Queue, pos: nat, token: nat)
    requires Coherent(q) && Holds(q, pos, token)
    ensures Coherent(Advanced(Written(q, pos, Slot(ACKED, 0, token))))
  {
    var w := Written(q, pos, Slot(ACKED, 0, token));
    var a := Advanced(w);
    assert forall seg :: Live(a, seg) ==> Live(q, seg);
    assert forall p :: q.head <= p < q.tail ==> p in w.slots && Proper(w.slots[p]);
  }

  // A push

  lemma PushedFormed(q: Queue)
    requires Formed(q) && q.tail < U64_MAX && HasRoom(q)
    ensures Formed(Pushed(q))
  {
    var w := Pushed(q);
    forall seg | Live(w, seg) ensures seg in w.ready {
      PushedLive(q, seg);
    }
  }

  /** The live segments after a push: those before it, and the segment of the new position. */
  lemma PushedLive(q: Queue, seg: nat)
    requires Formed(q) && q.tail < U64_MAX && Live(Pushed(q), seg)
    ensures if seg == q.tail / SEG_SLOTS then Live(q, seg) <==> !Opens(q) else Live(q, seg)
  {
  }

  /** A push keeps the summaries good if and only if it opens a segment, or the one it goes into
      was at zero. */
  lemma PushedTrusted(q: Queue)
    requires Coherent(q) && Trusted(q) && q.tail < LIMIT && HasRoom(q)
    ensures Trusted(Pushed(q)) <==> !SaysTaken(q)
  {
    var w, own := Pushed(q), q.tail / SEG_SLOTS;
    PushedFormed(q);
    Inside(w, q.tail);
    ReadyBelow(w.slots, SegLo(own, w.head), SegHi(own, w.tail), q.tail);
    forall seg | Live(w, seg) && seg != own
      ensures seg in w.ready && w.ready[seg] <= SegReady(w.slots, seg, w.head, w.tail)
    {
      PushedLive(q, seg);
      PushedElsewhere(q, seg);
    }
  }

  lemma PushedElsewhere(q: Queue, seg: nat)
    requires Coherent(q) && Live(q, seg) && seg != q.tail / SEG_SLOTS && q.tail < LIMIT
    ensures SegReady(Pushed(q).slots, seg, q.head, q.tail + 1) == SegReady(q.slots, seg, q.head, q.tail)
  {
    assert SegHi(seg, q.tail + 1) == SegHi(seg, q.tail) <= q.tail;
    ReadyChanged(q.slots, SegLo(seg, q.head), SegHi(seg, q.tail), q.tail, Slot(HELD, 0, 0));
  }

  // What every step keeps

  /** A push has a position to take. */
  predicate Fits(q: Queue, op: Request) {
    op == Push ==> q.tail < LIMIT
  }

  lemma StepCoherent(q: Queue, op: Request, q': Queue, r: Result)
    requires Coherent(q) && Step(q, op, q', r) && Fits(q, op)
    ensures Coherent(q')
  {
    match op
    case Push =>
      if HasRoom(q) {
        PushedFormed(q);
      }
    case Claim(now, duration) =>
      ClaimCoherent(q, Later(now, q.floor), duration, q', r);
    case Ack(pos, token) =>
      if Holds(q, pos, token) {
        AckedCoherent(q, pos, token);
      }
    case Nack(pos, token) =>
      if q' != q {
        WrittenCoherent(q, pos, Slot(HELD, 0, token + 1));
      }
    case Renew(pos, token, now, duration) =>
      RenewCoherent(q, pos, token, now, duration, q', r);
    case Commit =>
      SameCoherence(q, q.cursor, q.floor, q'.pages);
  }

  lemma RenewCoherent(q: Queue, pos: u64, token: u64, now: u64, duration: u64, q': Queue, r: Result)
    requires Coherent(q) && Step(q, Renew(pos, token, now, duration), q', r)
    ensures Coherent(q')
  {
    if r == Done {
      var w := Written(q, pos, Slot(CLAIMED, Later(now, q.floor) + duration, token));
      WrittenCoherent(q, pos, Slot(CLAIMED, Later(now, q.floor) + duration, token));
      SameCoherence(w, w.cursor, q'.floor, w.pages);
    } else {
      SameCoherence(q, q.cursor, q.floor, q'.pages);
    }
  }

  lemma ClaimCoherent(q: Queue, now: u64, duration: u64, q': Queue, r: Result)
    requires Coherent(q) && ClaimStep(q, now, duration, q', r)
    ensures Coherent(q')
  {
    if q' != q {
      var pos :| IsFirstVisible(q, now, true, pos) && ClaimAt(q, pos, now, duration, q', r);
      if now + duration > U64_MAX {
        RaisedKeeps(q, pos);
      } else {
        WrittenCoherent(q, pos, Slot(CLAIMED, now + duration, q.slots[pos].token + 1));
      }
    }
  }

  /** Summaries a commit accepts stay so through every step but a push into a segment that says
      it has nothing free. */
  lemma StepTrustedIff(q: Queue, op: Request, q': Queue, r: Result)
    requires Coherent(q) && Trusted(q) && Step(q, op, q', r) && Fits(q, op)
    ensures Trusted(q') <==> !(op == Push && SaysTaken(q))
  {
    if op != Push {
      StepTrusted(q, op, q', r);
    } else if HasRoom(q) {
      PushedTrusted(q);
    }
  }

  lemma StepTrusted(q: Queue, op: Request, q': Queue, r: Result)
    requires Coherent(q) && Trusted(q) && Step(q, op, q', r) && op != Push
    ensures Trusted(q')
  {
    match op
    case Claim(now, duration) =>
      ClaimTrusted(q, Later(now, q.floor), duration, q', r);
    case Ack(pos, token) =>
      if Holds(q, pos, token) {
        AckedTrusted(q, pos, token);
      }
    case Nack(pos, token) =>
      if q' != q {
        WrittenTrusted(q, pos, Slot(HELD, 0, token + 1));
      }
    case Renew(pos, token, now, duration) =>
      if r == Done {
        RenewedTrusted(q, pos, Slot(CLAIMED, Later(now, q.floor) + duration, token), Later(now, q.floor));
      } else {
        SameTrust(q, q'.pages);
      }
    case Commit =>
      SameTrust(q, q'.pages);
  }

  /** The summaries have nothing to do with the seals. */
  lemma SameTrust(q: Queue, pages: Pages)
    ensures Trusted(q.(pages := pages)) <==> Trusted(q)
  {
    assert forall seg :: Live(q.(pages := pages), seg) <==> Live(q, seg);
  }

  lemma AckedTrusted(q: Queue, pos: nat, token: nat)
    requires Coherent(q) && Trusted(q) && Holds(q, pos, token)
    ensures Trusted(Advanced(Written(q, pos, Slot(ACKED, 0, token))))
  {
    var w := Written(q, pos, Slot(ACKED, 0, token));
    WrittenTrusted(q, pos, Slot(ACKED, 0, token));
    AdvancedTrusted(w, AckedEnd(w.slots, w.head, w.tail));
  }

  lemma RenewedTrusted(q: Queue, pos: nat, s: Slot, floor: u64)
    requires Coherent(q) && Trusted(q) && q.head <= pos < q.tail
    ensures Trusted(Written(q, pos, s).(floor := floor))
  {
    var w := Written(q, pos, s);
    WrittenTrusted(q, pos, s);
    Aside(w, w.cursor, floor);
    assert w.(floor := floor) == w.(cursor := w.cursor, floor := floor);
  }

  /** The summaries have nothing to do with the cursor and the clock. */
  lemma Aside(q: Queue, cursor: nat, floor: u64)
    ensures Trusted(q.(cursor := cursor, floor := floor)) <==> Trusted(q)
  {
    assert forall seg :: Live(q.(cursor := cursor, floor := floor), seg) <==> Live(q, seg);
  }

  lemma TakenTrusted(q: Queue, pos: nat, now: u64, until: u64)
    requires Coherent(q) && Trusted(q) && q.head <= pos < q.tail
    ensures Trusted(Taken(q, pos, now, until))
  {
    var s, t := Slot(CLAIMED, until, q.slots[pos].token + 1), Taken(q, pos, now, until);
    WrittenTrusted(q, pos, s);
    Aside(Written(q, pos, s), t.cursor, t.floor);
  }

  lemma ClaimTrusted(q: Queue, now: u64, duration: u64, q': Queue, r: Result)
    requires Coherent(q) && Trusted(q) && ClaimStep(q, now, duration, q', r)
    ensures Trusted(q')
  {
    if q' != q {
      var pos :| IsFirstVisible(q, now, true, pos) && ClaimAt(q, pos, now, duration, q', r);
      ClaimAtTrusted(q, pos, now, duration, q', r);
    }
  }

  lemma ClaimAtTrusted(q: Queue, pos: nat, now: u64, duration: u64, q': Queue, r: Result)
    requires Coherent(q) && Trusted(q) && Visible(q, pos, now) && ClaimAt(q, pos, now, duration, q', r)
    ensures Trusted(q')
  {
    if r.Ticket? {
      TakenTrusted(q, pos, now, now + duration);
    } else if q' != q {
      RaisedKeeps(q, pos);
    }
  }

  /** The acknowledgement of the head, when everything behind it up to the cursor is acknowledged
      and the queue goes on behind the cursor. */
  ghost predicate PassesCursor(q: Queue, op: Request) {
    && op.Ack? && Holds(q, op.pos, op.token) && op.pos == q.head && q.cursor < q.tail
    && forall p :: q.head < p <= q.cursor ==> p in q.slots && q.slots[p].state == ACKED
  }

  /** Cursors a commit accepts stay so through every step but such an acknowledgement. */
  lemma StepOrderedIff(q: Queue, op: Request, q': Queue, r: Result)
    requires Coherent(q) && Ordered(q) && Step(q, op, q', r)
    ensures Ordered(q') <==> !PassesCursor(q, op)
  {
    if op.Ack? && Holds(q, op.pos, op.token) {
      AckOrdered(q, op.pos, op.token);
    }
  }

  lemma AckOrdered(q: Queue, pos: u64, token: u64)
    requires Coherent(q) && Ordered(q) && Holds(q, pos, token)
    ensures AckedEnd(q.slots[pos := Slot(ACKED, 0, token)], q.head, q.tail) <= q.cursor <==>
      !PassesCursor(q, Ack(pos, token))
  {
    var slots := q.slots[pos := Slot(ACKED, 0, token)];
    var end := AckedEnd(slots, q.head, q.tail);
    if PassesCursor(q, Ack(pos, token)) {
      assert forall p :: q.head <= p <= q.cursor ==> p in slots && slots[p].state == ACKED;
    }
    if end > q.cursor {
      assert q.head in slots && slots[q.head].state == ACKED;
      forall p | q.head < p <= q.cursor
        ensures p in q.slots && q.slots[p].state == ACKED
      {
        assert p in slots && slots[p].state == ACKED;
      }
    }
  }

  /** The deadline of a claim that finds a message, or of a renewal that holds one, does not fit into
      64 bits. */
  ghost predicate Overruns(q: Queue, op: Request) {
    || (op.Claim? && op.duration != 0 && Later(op.now, q.floor) + op.duration > U64_MAX
        && Handy(q, Later(op.now, q.floor)))
    || (op.Renew? && op.duration != 0 && Later(op.now, q.floor) + op.duration > U64_MAX
        && Holds(q, op.pos, op.token))
  }

  /** The search finds a message whose token can be raised. */
  ghost predicate Handy(q: Queue, now: u64) {
    exists pos :: IsFirstVisible(q, now, true, pos) && q.slots[pos].token < U64_MAX
  }

  /** Pages a commit accepts stay so through every step but one whose deadline overruns. */
  lemma StepSealedIff(q: Queue, op: Request, q': Queue, r: Result)
    requires Coherent(q) && Sealed(q) && Step(q, op, q', r)
    ensures Sealed(q') <==> !Overruns(q, op)
  {
    match op
    case Push =>
      if HasRoom(q) {
        forall seg | Live(q', seg) ensures seg !in q'.pages.loose {
          PushedLive(q, seg);
        }
      }
    case Claim(now, duration) =>
      ClaimSealed(q, Later(now, q.floor), duration, q', r);
    case Ack(pos, token) =>
      assert forall seg :: Live(q', seg) ==> Live(q, seg);
    case Nack(pos, token) =>
      assert forall seg :: Live(q', seg) ==> Live(q, seg);
    case Renew(pos, token, now, duration) =>
      assert forall seg :: Live(q', seg) ==> Live(q, seg);
    case Commit =>
      assert forall seg :: Live(q', seg) ==> Live(q, seg);
  }

  lemma ClaimSealed(q: Queue, now: u64, duration: u64, q': Queue, r: Result)
    requires Coherent(q) && Sealed(q) && ClaimStep(q, now, duration, q', r)
    ensures Sealed(q') <==> !(duration != 0 && now + duration > U64_MAX && Handy(q, now))
  {
    assert forall seg :: Live(q', seg) ==> Live(q, seg);
    if duration != 0 && now + duration > U64_MAX && Handy(q, now) {
      RefusedClaim(q, now, duration, q', r);
    }
  }

  /** The clock of a queue is the largest time it has given a lease at. It never runs back, and the
      ends of the queue only move on. */
  lemma StepMovesOn(q: Queue, op: Request, q': Queue, r: Result)
    requires Coherent(q) && Step(q, op, q', r)
    ensures q.floor <= q'.floor && q.head <= q'.head && q.tail <= q'.tail
    ensures r.Ticket? || (op.Renew? && r == Done) ==> q'.floor >= op.now && q'.floor in {op.now, q.floor}
    ensures !r.Ticket? && !(op.Renew? && r == Done) ==> q'.floor == q.floor
    ensures r.Ticket? ==> q'.cursor > r.pos && q'.cursor >= q.cursor && q'.cursor in {r.pos + 1, q.cursor}
  {
  }

  // Deadlines

  /** A lease, new or renewed, keeps its message from every claim before the deadline and from none
      after it. A message handed back, like a new one, can be claimed at every time, and one that is
      acknowledged at none. No operation changes when any other message can be claimed. */
  lemma StepDeadlines(q: Queue, op: Request, q': Queue, r: Result)
    requires Coherent(q) && Step(q, op, q', r)
    ensures r.Ticket? ==> op.Claim? && Leased(q.slots, q'.slots, r.pos, Later(op.now, q.floor) + op.duration)
    ensures op.Renew? && r == Done ==> Leased(q.slots, q'.slots, op.pos, Later(op.now, q.floor) + op.duration)
    ensures op.Nack? && r == Done ==> Leased(q.slots, q'.slots, op.pos, 0)
    ensures op == Push && r == Done ==> Leased(q.slots, q'.slots, q.tail, 0)
    ensures op.Ack? && r == Done ==> NeverClaimable(q'.slots, op.pos) && OthersKept(q.slots, q'.slots, op.pos)
    ensures op == Commit || !(r.Ticket? || r == Done) ==>
      forall p, t: u64 :: Claimable(q'.slots, p, t) <==> Claimable(q.slots, p, t)
  {
    match op
    case Push => SlotMeans(q.slots, q.tail, Slot(HELD, 0, 0));
    case Claim(now, duration) => ClaimDeadline(q, Later(now, q.floor), duration, q', r);
    case Ack(pos, token) => SlotMeans(q.slots, pos, Slot(ACKED, 0, token));
    case Nack(pos, token) => SlotMeans(q.slots, pos, Slot(HELD, 0, token + 1));
    case Renew(pos, token, now, duration) =>
      if r == Done {
        SlotMeans(q.slots, pos, Slot(CLAIMED, Later(now, q.floor) + duration, token));
      }
    case Commit =>
  }

  lemma SlotMeans(slots: Slots, p: nat, s: Slot)
    ensures OthersKept(slots, slots[p := s], p)
    ensures s.state == HELD ==> ClaimableFrom(slots[p := s], p, 0)
    ensures s.state == CLAIMED ==> ClaimableFrom(slots[p := s], p, s.until)
    ensures s.state == ACKED ==> NeverClaimable(slots[p := s], p)
  {
  }

  lemma ClaimDeadline(q: Queue, now: u64, duration: u64, q': Queue, r: Result)
    requires Coherent(q) && ClaimStep(q, now, duration, q', r)
    ensures r.Ticket? ==> Leased(q.slots, q'.slots, r.pos, now + duration)
    ensures !r.Ticket? ==> r != Done && forall p, t: u64 :: Claimable(q'.slots, p, t) <==> Claimable(q.slots, p, t)
  {
    if r.Ticket? {
      SlotMeans(q.slots, r.pos, Slot(CLAIMED, now + duration, r.token));
    }
  }

  /** One message can be claimed from a time on, and nothing else has changed. */
  ghost predicate Leased(before: Slots, after: Slots, p: nat, time: nat) {
    ClaimableFrom(after, p, time) && OthersKept(before, after, p)
  }

  // Tickets

  /** The ticket will never be good again: its message has been passed by the head, acknowledged
      under it, or has a higher token. */
  ghost predicate Spent(q: Queue, pos: nat, token: nat) {
    || pos < q.head
    || (pos < q.tail && pos in q.slots
        && (q.slots[pos].token > token || (q.slots[pos].token == token && q.slots[pos].state == ACKED)))
  }

  /** What ends a ticket: a claim that finds its message, whether or not it is refused for its
      deadline, its acknowledgement, or its being handed back. A token at its largest value can
      only be acknowledged. */
  ghost predicate Ends(q: Queue, op: Request, pos: nat, token: nat) {
    match op
    case Claim(now, duration) =>
      duration != 0 && token < U64_MAX && IsFirstVisible(q, Later(now, q.floor), true, pos)
    case Ack(p, t) => p == pos && t == token
    case Nack(p, t) => p == pos && t == token && token < U64_MAX
    case _ => false
  }

  /** A claim hands out a ticket that is good, and raises the token. */
  lemma TicketIsGood(q: Queue, op: Request, q': Queue, r: Result)
    requires Coherent(q) && Step(q, op, q', r) && r.Ticket?
    ensures Holds(q', r.pos, r.token) && r.token == q.slots[r.pos].token + 1
  {
  }

  /** Only these end a ticket, and for good. The clock has no say: nothing is asked of the times. */
  lemma TicketStep(q: Queue, op: Request, q': Queue, r: Result, pos: nat, token: nat)
    requires Coherent(q) && Step(q, op, q', r) && Holds(q, pos, token)
    ensures Holds(q', pos, token) <==> !Ends(q, op, pos, token)
    ensures Ends(q, op, pos, token) ==> Spent(q', pos, token)
  {
    match op
    case Push =>
    case Claim(now, duration) =>
      ClaimTicket(q, Later(now, q.floor), duration, q', r, pos, token);
    case Ack(p, t) =>
      AckTicket(q, p, t, q', r, pos, token);
    case Nack(p, t) =>
      if q' != q {
        WrittenTicket(q, p, Slot(HELD, 0, t + 1), pos, token);
      }
    case Renew(p, t, now, duration) =>
      if r == Done {
        WrittenTicket(q, p, Slot(CLAIMED, Later(now, q.floor) + duration, t), pos, token);
      }
    case Commit =>
  }

  lemma WrittenTicket(q: Queue, p: nat, s: Slot, pos: nat, token: nat)
    requires Coherent(q) && Holds(q, pos, token) && q.head <= p < q.tail
    ensures p != pos ==> Holds(Written(q, p, s), pos, token)
    ensures p == pos ==> Written(q, p, s).slots[pos] == s
  {
  }

  lemma AckTicket(q: Queue, p: u64, t: u64, q': Queue, r: Result, pos: nat, token: nat)
    requires Coherent(q) && Step(q, Ack(p, t), q', r) && Holds(q, pos, token)
    ensures Holds(q', pos, token) <==> !(r == Done && p == pos && t == token)
    ensures r == Done && p == pos && t == token ==> Spent(q', pos, token)
  {
    if Holds(q, p, t) {
      var w := Written(q, p, Slot(ACKED, 0, t));
      WrittenTicket(q, p, Slot(ACKED, 0, t), pos, token);
      assert q'.slots == w.slots && q'.tail == q.tail;
      if p != pos {
        assert w.slots[pos].state != ACKED;
        assert q'.head <= pos;
      }
    }
  }

  lemma ClaimTicket(q: Queue, now: u64, duration: u64, q': Queue, r: Result, pos: nat, token: nat)
    requires Coherent(q) && ClaimStep(q, now, duration, q', r) && Holds(q, pos, token)
    ensures Holds(q', pos, token) <==> !(duration != 0 && token < U64_MAX && IsFirstVisible(q, now, true, pos))
    ensures !Holds(q', pos, token) ==> Spent(q', pos, token)
  {
    if duration != 0 && !IsFirstVisible(q, now, false, 0) {
      var p :| IsFirstVisible(q, now, true, p) && ClaimAt(q, p, now, duration, q', r);
      FirstVisibleUnique(q, now, p, pos);
      if p != pos {
        assert q'.slots[pos] == q.slots[pos];
      }
    } else if duration != 0 {
      FirstVisibleOrNone(q, now, pos);
    }
  }

  lemma FirstVisibleUnique(q: Queue, now: u64, p: nat, pos: nat)
    requires IsFirstVisible(q, now, true, p)
    ensures IsFirstVisible(q, now, true, pos) <==> pos == p
    ensures !IsFirstVisible(q, now, false, 0)
  {
  }

  lemma FirstVisibleOrNone(q: Queue, now: u64, pos: nat)
    requires IsFirstVisible(q, now, false, 0)
    ensures !IsFirstVisible(q, now, true, pos)
  {
  }

  lemma SpentStep(q: Queue, op: Request, q': Queue, r: Result, pos: nat, token: nat)
    requires Coherent(q) && Step(q, op, q', r) && Spent(q, pos, token)
    ensures Spent(q', pos, token)
    ensures op.Ack? && op.pos == pos && op.token == token ==> r == BadLease && q' == q
    ensures op.Nack? && op.pos == pos && op.token == token ==> r in {BadLease, BadValue} && q' == q
    ensures op.Renew? && op.pos == pos && op.token == token ==> r in {BadLease, BadValue} && q' == q
  {
  }

  /** An operation that is refused leaves the queue as it was, unless its deadline overruns. A
      renewal for which that holds leaves it too, if the queue page was not sealed before and the
      segment was a copy of its own. */
  lemma RefusedAloneIff(q: Queue, op: Request, q': Queue, r: Result)
    requires Coherent(q) && Step(q, op, q', r) && r != Done && !r.Ticket?
    ensures q' == q <==>
      !Overruns(q, op) || (op.Renew? && !q.pages.sealed && op.pos / SEG_SLOTS in q.pages.own)
  {
    match op
    case Claim(now, duration) =>
      if duration != 0 {
        RefusedClaim(q, Later(now, q.floor), duration, q', r);
      }
    case Renew(pos, token, now, duration) =>
      if Overruns(q, op) {
        TouchedSame(q.pages, pos / SEG_SLOTS);
      }
    case _ =>
  }

  lemma TouchedSame(p: Pages, seg: nat)
    ensures p.Opened(seg, false) == p <==> !p.sealed && seg in p.own
  {
    if p.Opened(seg, false) == p {
      assert seg in p.Opened(seg, false).own;
    }
  }

  lemma RefusedClaim(q: Queue, now: u64, duration: u64, q': Queue, r: Result)
    requires Coherent(q) && ClaimStep(q, now, duration, q', r) && duration != 0
    ensures !r.Ticket? ==> (q' == q <==> !(now + duration > U64_MAX && Handy(q, now)))
    ensures now + duration > U64_MAX && Handy(q, now) ==> !q'.pages.sealed
  {
    if IsFirstVisible(q, now, false, 0) {
      forall pos ensures !IsFirstVisible(q, now, true, pos) {
        FirstVisibleOrNone(q, now, pos);
      }
    } else {
      var p :| IsFirstVisible(q, now, true, p) && ClaimAt(q, p, now, duration, q', r);
      forall pos ensures IsFirstVisible(q, now, true, pos) <==> pos == p {
        FirstVisibleUnique(q, now, p, pos);
      }
      if q.slots[p].token < U64_MAX && now + duration > U64_MAX {
        assert q'.slots[p].token != q.slots[p].token;
      }
    }
  }

  // Runs

  datatype Event = Event(op: Request, after: Queue, result: Result)

  ghost predicate Run(q: Queue, run: seq<Event>)
    decreases |run|
  {
    |run| != 0 ==>
      && Fits(q, run[0].op) && Step(q, run[0].op, run[0].after, run[0].result)
      && Run(run[0].after, run[1..])
  }

  function Last(q: Queue, run: seq<Event>): Queue
    decreases |run|
  {
    if |run| == 0 then q else Last(run[0].after, run[1..])
  }

  ghost predicate NeverEnded(q: Queue, run: seq<Event>, pos: nat, token: nat)
    decreases |run|
  {
    |run| != 0 ==>
      && !Ends(q, run[0].op, pos, token)
      && NeverEnded(run[0].after, run[1..], pos, token)
  }

  lemma {:induction false} SpentForever(q: Queue, run: seq<Event>, pos: nat, token: nat)
    requires Coherent(q) && Run(q, run) && Spent(q, pos, token)
    ensures Coherent(Last(q, run)) && Spent(Last(q, run), pos, token)
    decreases |run|
  {
    if |run| != 0 {
      StepCoherent(q, run[0].op, run[0].after, run[0].result);
      SpentStep(q, run[0].op, run[0].after, run[0].result, pos, token);
      SpentForever(run[0].after, run[1..], pos, token);
    }
  }

  /** A ticket is good after a run, whatever the times in it, if and only if nothing in the run
      ended it. A ticket that was ended is spent. */
  lemma {:induction false} TicketRun(q: Queue, run: seq<Event>, pos: nat, token: nat)
    requires Coherent(q) && Run(q, run) && Holds(q, pos, token)
    ensures Coherent(Last(q, run)) && (Holds(Last(q, run), pos, token) <==> NeverEnded(q, run, pos, token))
    ensures !NeverEnded(q, run, pos, token) ==> Spent(Last(q, run), pos, token)
    decreases |run|
  {
    if |run| != 0 {
      StepCoherent(q, run[0].op, run[0].after, run[0].result);
      TicketStep(q, run[0].op, run[0].after, run[0].result, pos, token);
      if Ends(q, run[0].op, pos, token) {
        SpentForever(run[0].after, run[1..], pos, token);
      } else {
        TicketRun(run[0].after, run[1..], pos, token);
      }
    }
  }

  /** From the claim that gave a ticket to the acknowledgement that presents it, over any run in
      between: it is accepted exactly when no claim found the message again, and the ticket was not
      already used to acknowledge it or to hand it back. */
  lemma AcceptedIff(q: Queue, claim: Event, run: seq<Event>, ack: Event)
    requires Coherent(q) && Step(q, claim.op, claim.after, claim.result) && claim.result.Ticket?
    requires Run(claim.after, run) && Step(Last(claim.after, run), ack.op, ack.after, ack.result)
    requires ack.op.Ack? && ack.op.pos == claim.result.pos && ack.op.token == claim.result.token
    ensures ack.result == Done <==> NeverEnded(claim.after, run, claim.result.pos, claim.result.token)
    ensures ack.result in {Done, BadLease}
  {
    StepCoherent(q, claim.op, claim.after, claim.result);
    TicketIsGood(q, claim.op, claim.after, claim.result);
    TicketRun(claim.after, run, claim.result.pos, claim.result.token);
  }

  /** The deadline of a ticket after one more event, and after a run of them: that of the last
      renewal that succeeded. */
  function Extended(q: Queue, e: Event, pos: nat, token: nat, until: nat): nat {
    if e.op.Renew? && e.op.pos == pos && e.op.token == token && e.result == Done
    then Later(e.op.now, q.floor) + e.op.duration
    else until
  }

  function Granted(q: Queue, run: seq<Event>, pos: nat, token: nat, until: nat): nat
    decreases |run|
  {
    if |run| == 0 then until
    else Granted(run[0].after, run[1..], pos, token, Extended(q, run[0], pos, token, until))
  }

  /** The holder neither acknowledges the message nor hands it back, and no claim is made at a queue
      time at which the last deadline granted has passed. */
  ghost predicate KeptInTime(q: Queue, run: seq<Event>, pos: nat, token: nat, until: nat)
    decreases |run|
  {
    |run| != 0 ==>
      && !(run[0].op.Ack? && run[0].op.pos == pos && run[0].op.token == token)
      && !(run[0].op.Nack? && run[0].op.pos == pos && run[0].op.token == token)
      && (run[0].op.Claim? ==> Later(run[0].op.now, q.floor) < until)
      && KeptInTime(run[0].after, run[1..], pos, token, Extended(q, run[0], pos, token, until))
  }

  lemma DeadlineStep(q: Queue, e: Event, pos: nat, token: nat)
    requires Coherent(q) && Step(q, e.op, e.after, e.result) && Holds(q, pos, token) && !Ends(q, e.op, pos, token)
    ensures Holds(e.after, pos, token)
    ensures e.after.slots[pos].until == Extended(q, e, pos, token, q.slots[pos].until)
  {
    TicketStep(q, e.op, e.after, e.result, pos, token);
  }

  /** As long as nothing ends a ticket, its deadline is the last one granted. */
  lemma {:induction false} DeadlineRun(q: Queue, run: seq<Event>, pos: nat, token: nat)
    requires Coherent(q) && Run(q, run) && Holds(q, pos, token) && NeverEnded(q, run, pos, token)
    ensures Coherent(Last(q, run)) && Holds(Last(q, run), pos, token)
    ensures Last(q, run).slots[pos].until == Granted(q, run, pos, token, q.slots[pos].until)
    decreases |run|
  {
    if |run| != 0 {
      StepCoherent(q, run[0].op, run[0].after, run[0].result);
      DeadlineStep(q, run[0], pos, token);
      DeadlineRun(run[0].after, run[1..], pos, token);
    }
  }

  /** From the claim that gave a ticket to any later claim, over any run that does not end the
      ticket: at a queue time before the last deadline granted, the later claim gets another message
      or none, and the ticket is still good. */
  lemma NotTakenEarly(q: Queue, claim: Event, run: seq<Event>, next: Event)
    requires Coherent(q) && Step(q, claim.op, claim.after, claim.result) && claim.result.Ticket?
    requires Run(claim.after, run) && NeverEnded(claim.after, run, claim.result.pos, claim.result.token)
    requires next.op.Claim? && Step(Last(claim.after, run), next.op, next.after, next.result)
    requires Later(next.op.now, Last(claim.after, run).floor)
      < Granted(claim.after, run, claim.result.pos, claim.result.token,
        Later(claim.op.now, q.floor) + claim.op.duration)
    ensures !(next.result.Ticket? && next.result.pos == claim.result.pos)
    ensures Holds(next.after, claim.result.pos, claim.result.token)
  {
    FirstDeadline(q, claim);
    DeadlineRun(claim.after, run, claim.result.pos, claim.result.token);
    EarlyClaim(Last(claim.after, run), next, claim.result.pos, claim.result.token);
  }

  lemma FirstDeadline(q: Queue, claim: Event)
    requires Coherent(q) && Step(q, claim.op, claim.after, claim.result) && claim.result.Ticket?
    ensures claim.op.Claim? && Coherent(claim.after) && Holds(claim.after, claim.result.pos, claim.result.token)
    ensures claim.after.slots[claim.result.pos].until == Later(claim.op.now, q.floor) + claim.op.duration
  {
    StepCoherent(q, claim.op, claim.after, claim.result);
    TicketIsGood(q, claim.op, claim.after, claim.result);
  }

  lemma EarlyClaim(q: Queue, next: Event, pos: nat, token: nat)
    requires Coherent(q) && Holds(q, pos, token) && next.op.Claim? && Step(q, next.op, next.after, next.result)
    requires Later(next.op.now, q.floor) < q.slots[pos].until
    ensures !(next.result.Ticket? && next.result.pos == pos) && Holds(next.after, pos, token)
  {
    ClaimTicket(q, Later(next.op.now, q.floor), next.op.duration, next.after, next.result, pos, token);
  }

  lemma {:induction false} InTime(q: Queue, run: seq<Event>, pos: nat, token: nat)
    requires Coherent(q) && Run(q, run) && Holds(q, pos, token)
    requires KeptInTime(q, run, pos, token, q.slots[pos].until)
    ensures NeverEnded(q, run, pos, token)
    decreases |run|
  {
    if |run| != 0 {
      StepCoherent(q, run[0].op, run[0].after, run[0].result);
      DeadlineStep(q, run[0], pos, token);
      InTime(run[0].after, run[1..], pos, token);
    }
  }

  /** What a lease promises its holder: the ticket is good after every run in which each claim is
      made before the last deadline granted, whatever else happens to the queue. */
  lemma LeaseKept(q: Queue, claim: Event, run: seq<Event>)
    requires Coherent(q) && Step(q, claim.op, claim.after, claim.result) && claim.result.Ticket?
    requires Run(claim.after, run)
    requires KeptInTime(claim.after, run, claim.result.pos, claim.result.token,
                        Later(claim.op.now, q.floor) + claim.op.duration)
    ensures Holds(Last(claim.after, run), claim.result.pos, claim.result.token)
  {
    FirstDeadline(q, claim);
    InTime(claim.after, run, claim.result.pos, claim.result.token);
    DeadlineRun(claim.after, run, claim.result.pos, claim.result.token);
  }

  /** No event of the run acknowledges the position. */
  ghost predicate NotAcked(run: seq<Event>, pos: nat) {
    forall i :: 0 <= i < |run| ==> !(run[i].op.Ack? && run[i].op.pos == pos && run[i].result == Done)
  }

  lemma StaysStep(q: Queue, op: Request, q': Queue, r: Result, pos: nat)
    requires Coherent(q) && Step(q, op, q', r) && q.head <= pos < q.tail && q.slots[pos].state != ACKED
    requires !(op.Ack? && op.pos == pos && r == Done)
    ensures q'.head <= pos < q'.tail && pos in q'.slots && q'.slots[pos].state != ACKED
  {
  }

  /** A message stays in the queue until it is acknowledged. */
  lemma {:induction false} StaysUntilAcked(q: Queue, run: seq<Event>, pos: nat)
    requires Coherent(q) && Run(q, run) && q.head <= pos < q.tail && q.slots[pos].state != ACKED && NotAcked(run, pos)
    ensures Last(q, run).head <= pos < Last(q, run).tail && pos in Last(q, run).slots
    ensures Last(q, run).slots[pos].state != ACKED
    decreases |run|
  {
    if |run| != 0 {
      StepCoherent(q, run[0].op, run[0].after, run[0].result);
      StaysStep(q, run[0].op, run[0].after, run[0].result, pos);
      assert NotAcked(run[1..], pos);
      StaysUntilAcked(run[0].after, run[1..], pos);
    }
  }

  ghost predicate AcceptedThroughout(q: Queue, run: seq<Event>)
    decreases |run|
  {
    Accepted(q) && (|run| != 0 ==> AcceptedThroughout(run[0].after, run[1..]))
  }

  /** A push into a segment with nothing free, an acknowledgement that takes the head past the
      cursor, or a deadline that overruns. */
  ghost predicate Upsets(q: Queue, op: Request) {
    (op == Push && SaysTaken(q)) || PassesCursor(q, op) || Overruns(q, op)
  }

  ghost predicate NeverUpset(q: Queue, run: seq<Event>)
    decreases |run|
  {
    |run| != 0 ==> !Upsets(q, run[0].op) && NeverUpset(run[0].after, run[1..])
  }

  lemma StepAcceptedIff(q: Queue, e: Event)
    requires Coherent(q) && Accepted(q) && Step(q, e.op, e.after, e.result) && Fits(q, e.op)
    ensures Accepted(e.after) <==> !Upsets(q, e.op)
  {
    StepTrustedIff(q, e.op, e.after, e.result);
    StepOrderedIff(q, e.op, e.after, e.result);
    StepSealedIff(q, e.op, e.after, e.result);
  }

  /** A queue a commit accepts is accepted after every operation of a run if and only if none of
      them is one of those three. */
  lemma {:induction false} RunAcceptedIff(q: Queue, run: seq<Event>)
    requires Coherent(q) && Accepted(q) && Run(q, run)
    ensures AcceptedThroughout(q, run) <==> NeverUpset(q, run)
    decreases |run|
  {
    if |run| != 0 {
      StepCoherent(q, run[0].op, run[0].after, run[0].result);
      StepAcceptedIff(q, run[0]);
      if Accepted(run[0].after) {
        RunAcceptedIff(run[0].after, run[1..]);
      }
    }
  }

  /** So every commit of a run succeeds in which none of the three happens. */
  lemma {:induction false} CommitsSucceed(q: Queue, run: seq<Event>)
    requires Coherent(q) && Accepted(q) && Run(q, run) && NeverUpset(q, run)
    ensures forall i :: 0 <= i < |run| && run[i].op == Commit ==> run[i].result == Done
    decreases |run|
  {
    if |run| != 0 {
      StepCoherent(q, run[0].op, run[0].after, run[0].result);
      StepAcceptedIff(q, run[0]);
      CommitsSucceed(run[0].after, run[1..]);
      assert forall i :: 0 < i < |run| ==> run[i] == run[1..][i - 1];
    }
  }

  /** In a queue a commit accepts, a claim takes the first message that can be claimed at the
      queue's own time, and finds none only when there is none. */
  lemma ClaimIsFirst(q: Queue, now: u64, duration: u64, q': Queue, r: Result)
    requires Coherent(q) && Trusted(q) && Step(q, Claim(now, duration), q', r)
    ensures r.Ticket? ==> IsFirstClaimable(q.slots, q.head, q.tail, Later(now, q.floor), true, r.pos)
    ensures r == NotFound ==> IsFirstClaimable(q.slots, q.head, q.tail, Later(now, q.floor), false, 0)
  {
    if r.Ticket? {
      SearchIsWalk(q, Later(now, q.floor), true, r.pos);
    } else if r == NotFound {
      SearchIsWalk(q, Later(now, q.floor), false, 0);
    }
  }

  // The engine

  class Engine {
    var q: Queue

    constructor ()
      ensures q == Queue(0, 0, 0, 0, map[], map[], Pages(true, {}, {})) && Coherent(q) && Accepted(q)
    {
      q := Queue(0, 0, 0, 0, map[], map[], Pages(true, {}, {}));
    }

    /** `db_queue_scan_claimable`: the walk from the head that steps over a segment whose summary
        is still ahead. Past the last segment of the number space it would step back to position
        46, where the directory has nothing; `back` says that it got there. */
    method Scan(now: u64) returns (found: bool, pos: nat, back: bool)
      requires Formed(q)
      ensures back <==> StepsBack(q, now)
      ensures !back ==> IsFirstVisible(q, now, found, pos)
      ensures found ==> q.head <= pos < q.tail
      ensures back ==> !found && pos < q.head
    {
      var hand := -1;
      found, pos, back := false, q.head, false;
      while pos < q.tail
        invariant q.head <= pos
        invariant forall p :: q.head <= p < pos && p < q.tail ==> !Visible(q, p, now)
        invariant hand == pos / SEG_SLOTS && pos < q.tail ==> hand in q.ready && q.ready[hand] <= now
        invariant pos > LIMIT && pos > q.head ==>
          hand == LIMIT / SEG_SLOTS && hand in q.ready && q.ready[hand] <= now
        decreases q.tail - pos
      {
        var seg := pos / SEG_SLOTS;
        assert Live(q, seg);
        if seg != hand {
          hand := seg;
          if q.ready[seg] > now {
            var next := Wrap64((seg + 1) * SEG_SLOTS);
            if next <= pos {
              pos, back := next, true;
              return;
            }
            pos := next;
            continue;
          }
        }
        if Claimable(q.slots, pos, now) {
          assert Visible(q, pos, now) && (pos >= LIMIT ==> seg == LIMIT / SEG_SLOTS);
          found := true;
          return;
        }
        pos := pos + 1;
      }
      pos := 0;
    }

    /** `lease_summaries_valid`. */
    method SummariesValid() returns (ok: bool)
      requires Coherent(q)
      ensures ok <==> Trusted(q)
    {
      if q.head == q.tail {
        return true;
      }
      var seg := FirstSeg(q.head);
      while seg <= LastSeg(q.tail)
        invariant FirstSeg(q.head) <= seg <= LastSeg(q.tail) + 1
        invariant forall k: nat {:trigger Live(q, k)} :: Live(q, k) && k < seg ==>
          q.ready[k] <= SegReady(q.slots, k, q.head, q.tail)
        decreases LastSeg(q.tail) + 1 - seg
      {
        assert Live(q, seg);
        var best, _ := SegmentReadyAt(q.slots, seg, q.head, q.tail);
        if q.ready[seg] > best {
          return false;
        }
        seg := seg + 1;
      }
      return true;
    }

    /** The segments, one by one: each names itself and its checksum is right. */
    method SegmentsSealed() returns (ok: bool)
      requires Coherent(q)
      ensures ok <==> forall seg :: Live(q, seg) ==> seg !in q.pages.loose
    {
      if q.head == q.tail {
        return true;
      }
      var seg := FirstSeg(q.head);
      while seg <= LastSeg(q.tail)
        invariant FirstSeg(q.head) <= seg <= LastSeg(q.tail) + 1
        invariant forall k: nat {:trigger Live(q, k)} :: Live(q, k) && k < seg ==> k !in q.pages.loose
        decreases LastSeg(q.tail) + 1 - seg
      {
        if seg in q.pages.loose {
          assert Live(q, seg);
          return false;
        }
        seg := seg + 1;
      }
      return true;
    }

    /** What a commit checks of the queue: its page, the cursors, the segments, the summaries. */
    method PageValid() returns (ok: bool)
      requires Coherent(q)
      ensures ok <==> Accepted(q)
    {
      ok := q.pages.sealed && q.head <= q.cursor && q.cursor <= q.tail;
      if ok {
        ok := SegmentsSealed();
      }
      if ok {
        ok := SummariesValid();
      }
    }

    /** As far as this queue is concerned, `db_commit`: what it refuses stays as it is, and what it
        publishes is no longer the transaction's own. */
    method CommitQueue() returns (r: Result)
      requires Coherent(q)
      modifies this
      ensures Step(old(q), Commit, q, r) && Coherent(q)
    {
      var ok := PageValid();
      if !ok {
        return Refused;
      }
      q := q.(pages := q.pages.(own := {}));
      r := Done;
      StepCoherent(old(q), Commit, q, r);
    }

    /** `db_queue_push`. The position after the last one is zero, and no queue. */
    method PushMessage() returns (r: Result)
      requires Formed(q)
      modifies this
      ensures Step(old(q), Push, q, r)
      ensures r == Done ==> Leased(old(q.slots), q.slots, old(q.tail), 0)
      ensures Formed(q) <==> r == FullQueue || old(q.tail) < U64_MAX
      ensures old(Coherent(q)) && old(q.tail) < LIMIT ==> Coherent(q)
    {
      var seg := q.tail / SEG_SLOTS;
      var segments := if q.head == q.tail then 0 else LastSeg(q.tail) - FirstSeg(q.head) + 1;
      var first := if segments == 0 then seg else FirstSeg(q.head);
      if seg - first >= segments && seg - first >= MAX_SEGMENTS {
        return FullQueue;
      }
      var ready := if seg - first >= segments then q.ready[seg := 0] else q.ready;
      if q.tail < U64_MAX {
        PushedFormed(q);
      }
      SlotMeans(q.slots, q.tail, Slot(HELD, 0, 0));
      q := Queue(q.head, Bump(q.tail), q.head, q.floor, q.slots[q.tail := Slot(HELD, 0, 0)], ready,
        q.pages.Closed(seg));
      r := Done;
    }

    /** `lease_edit_slot`: the pages are copied where they have to be, and no longer sealed. */
    method EditSlot(pos: nat)
      modifies this
      ensures q == Touched(old(q), pos)
    {
      var seg := pos / SEG_SLOTS;
      var loose := if seg in q.pages.own then q.pages.loose else q.pages.loose + {seg};
      q := q.(pages := Pages(false, loose, q.pages.own + {seg}));
    }

    /** Write one slot of a segment made writable, have the summary computed again, and seal. */
    method WriteSlot(pos: nat, s: Slot)
      modifies this
      ensures q == Written(old(q), pos, s)
    {
      var slots := q.slots[pos := s];
      var best, _ := SegmentReadyAt(slots, pos / SEG_SLOTS, q.head, q.tail);
      q := q.(slots := slots, ready := q.ready[pos / SEG_SLOTS := best]);
      q := q.(pages := q.pages.Closed(pos / SEG_SLOTS));
    }

    /** `db_queue_claim`. */
    method ClaimMessage(now: u64, duration: u64) returns (r: Result)
      requires Coherent(q)
      modifies this
      ensures Step(old(q), Claim(now, duration), q, r) && Coherent(q)
      ensures r.Ticket? ==> Leased(old(q.slots), q.slots, r.pos, Later(now, old(q.floor)) + duration)
    {
      if duration == 0 {
        return BadValue;
      }
      var time := if now >= q.floor then now else q.floor;
      var found, pos, _ := Scan(time);
      if !found {
        return NotFound;
      }
      r := ClaimFound(pos, time, duration);
      ClaimCoherent(old(q), time, duration, q, r);
    }

    method ClaimFound(pos: nat, time: u64, duration: u64) returns (r: Result)
      requires Coherent(q) && q.head <= pos < q.tail
      modifies this
      ensures ClaimAt(old(q), pos, time, duration, q, r)
    {
      if q.slots[pos].token == U64_MAX {
        return BadValue;
      }
      EditSlot(pos);
      var token := q.slots[pos].token + 1;
      q := q.(slots := q.slots[pos := q.slots[pos].(token := token)],
              pages := q.pages.(loose := q.pages.loose + {pos / SEG_SLOTS}));
      TouchedRaised(old(q), pos);
      if time + duration > U64_MAX {
        return BadValue;
      }
      WriteSlot(pos, Slot(CLAIMED, time + duration, token));
      if pos + 1 > q.cursor {
        q := q.(cursor := pos + 1);
      }
      q := q.(floor := time);
      r := Ticket(pos, token);
    }

    /** `lease_advance_head`. */
    method AdvanceHead()
      modifies this
      ensures q == Advanced(old(q))
    {
      var head := q.head;
      while head < q.tail && head in q.slots && q.slots[head].state == ACKED
        invariant q == old(q) && q.head <= head
        invariant AckedEnd(q.slots, head, q.tail) == AckedEnd(q.slots, q.head, q.tail)
      {
        head := head + 1;
      }
      q := q.(head := head);
    }

    /** `lease_hold`: the slot made writable, for the holder of a good ticket. */
    method Hold(pos: nat, token: nat) returns (ok: bool)
      modifies this
      ensures ok == Holds(old(q), pos, token) && q == if ok then Touched(old(q), pos) else old(q)
    {
      ok := Holds(q, pos, token);
      if ok {
        EditSlot(pos);
      }
    }

    /** `db_queue_ack`. */
    method AckMessage(pos: u64, token: u64) returns (r: Result)
      requires Coherent(q)
      modifies this
      ensures Step(old(q), Ack(pos, token), q, r) && Coherent(q)
      ensures r == Done ==> NeverClaimable(q.slots, pos) && OthersKept(old(q.slots), q.slots, pos)
    {
      var ok := Hold(pos, token);
      if !ok {
        return BadLease;
      }
      AckedCoherent(old(q), pos, token);
      TouchedWritten(old(q), pos, Slot(ACKED, 0, token));
      WriteSlot(pos, Slot(ACKED, 0, token));
      AdvanceHead();
      r := Done;
    }

    /** `db_queue_nack`. */
    method NackMessage(pos: u64, token: u64) returns (r: Result)
      requires Coherent(q)
      modifies this
      ensures Step(old(q), Nack(pos, token), q, r) && Coherent(q)
      ensures r == Done ==> Leased(old(q.slots), q.slots, pos, 0)
    {
      if !(q.head <= pos < q.tail) {
        return BadLease;
      }
      if q.slots[pos].token == U64_MAX {
        return BadValue;
      }
      var ok := Hold(pos, token);
      if !ok {
        return BadLease;
      }
      WrittenCoherent(old(q), pos, Slot(HELD, 0, token + 1));
      TouchedWritten(old(q), pos, Slot(HELD, 0, token + 1));
      WriteSlot(pos, Slot(HELD, 0, token + 1));
      r := Done;
    }

    /** `db_queue_renew`. */
    method RenewMessage(pos: u64, token: u64, now: u64, duration: u64) returns (r: Result)
      requires Coherent(q)
      modifies this
      ensures Step(old(q), Renew(pos, token, now, duration), q, r) && Coherent(q)
      ensures r == Done ==> Leased(old(q.slots), q.slots, pos, Later(now, old(q.floor)) + duration)
    {
      if duration == 0 {
        return BadValue;
      }
      var time := if now >= q.floor then now else q.floor;
      var ok := Hold(pos, token);
      if !ok {
        return BadLease;
      }
      if time + duration > U64_MAX {
        SameCoherence(old(q), q.cursor, q.floor, q.pages);
        return BadValue;
      }
      TouchedWritten(old(q), pos, Slot(CLAIMED, time + duration, token));
      WriteSlot(pos, Slot(CLAIMED, time + duration, token));
      q := q.(floor := time);
      r := Done;
      RenewCoherent(old(q), pos, token, now, duration, q, r);
    }
  }

  // Where a commit refuses what the operations did

  const TAKEN: Slot := Slot(CLAIMED, 15, 1)
  const FREE: Slot := Slot(HELD, 0, 0)
  const SEALED: Pages := Pages(true, {}, {0})

  /** One message, pushed. */
  method OneMessage() returns (e: Engine)
    ensures e.q == Queue(0, 1, 0, 0, map[0 := FREE], map[0 := 0], SEALED) && Coherent(e.q)
    ensures fresh(e)
  {
    e := new Engine();
    var r := e.PushMessage();
    assert e.q.pages == SEALED;
  }

  /** And claimed, at 5 until 15. */
  method OneTaken() returns (e: Engine)
    ensures e.q == Queue(0, 1, 1, 5, map[0 := TAKEN], map[0 := 15], SEALED) && Coherent(e.q)
    ensures fresh(e)
  {
    e := OneMessage();
    assert Visible(e.q, 0, 5);
    var r := e.ClaimMessage(5, 10);
    OneSlotReady(TAKEN);
    assert e.q.pages == SEALED;
  }

  /** And a second one pushed behind it. */
  method TwoMessages() returns (e: Engine)
    ensures e.q == Queue(0, 2, 0, 5, map[0 := TAKEN, 1 := FREE], map[0 := 15], SEALED) && Coherent(e.q)
    ensures fresh(e)
  {
    e := OneTaken();
    var r := e.PushMessage();
    assert e.q.slots == map[0 := TAKEN, 1 := FREE] && e.q.pages == SEALED;
  }

  lemma OneSlotReady(s: Slot)
    requires s.state == CLAIMED
    ensures SegReady(map[0 := s], 0, 0, 1) == s.until
  {
  }

  /** The second message was pushed while the first was claimed: a commit refuses the summary, and
      a claim at 6 does not find the message. */
  method HiddenMessageExample() returns (e: Engine, r: Result)
    ensures r == NotFound && Coherent(e.q) && !Trusted(e.q) && Claimable(e.q.slots, 1, 6)
  {
    e := TwoMessages();
    assert Live(e.q, 0);
    ReadyBelow(e.q.slots, SegLo(0, 0), SegHi(0, 2), 1);
    r := e.ClaimMessage(6, 10);
  }

  /** The first message is then acknowledged: a commit refuses the head, which is past the
      cursor. */
  method CursorExample() returns (e: Engine, r: Result)
    ensures r == Done && Coherent(e.q) && !Ordered(e.q)
  {
    e := TwoMessages();
    assert PassesCursor(e.q, Ack(0, 1));
    ghost var was := e.q;
    r := e.AckMessage(0, 1);
    StepOrderedIff(was, Ack(0, 1), e.q, r);
  }

  /** A claim until after the end of time is refused. The token has been raised all the same, and
      the commit that follows is refused too. */
  method RefusedClaimExample() returns (e: Engine, r: Result, commit: Result)
    ensures r == BadValue && commit == Refused && 0 in e.q.slots && e.q.slots[0] == Slot(HELD, 0, 1)
  {
    e := OneMessage();
    assert Visible(e.q, 0, 5);
    r := e.ClaimMessage(5, U64_MAX);
    commit := e.CommitQueue();
  }

  /** A renewal until after the end of time, with a good ticket, in a transaction of its own. It is
      refused, and so is the commit that follows, although no slot has changed. */
  method RefusedRenewalExample() returns (e: Engine, before: Result, r: Result, commit: Result)
    ensures before == Done && r == BadValue && commit == Refused && e.q.slots == map[0 := TAKEN]
  {
    e := OneTaken();
    assert Accepted(e.q) by {
      OneSlotReady(TAKEN);
      assert forall seg :: Live(e.q, seg) ==> seg == 0;
    }
    before := e.CommitQueue();
    r := e.RenewMessage(0, 1, 6, U64_MAX);
    commit := e.CommitQueue();
  }

  /** The one message of a queue that has come to position 2^64 - 16 was claimed until 15, and the
      summary of its segment, whose end wraps, says never. At 20 the search leaves the queue. */
  method StepsBackExample() returns (e: Engine, found: bool, pos: nat, back: bool)
    ensures Formed(e.q) && Claimable(e.q.slots, e.q.head, 20) && back && !found && pos < e.q.head
    ensures forall seg :: Live(e.q, seg) ==> e.q.ready[seg] == SegReady(e.q.slots, seg, e.q.head, e.q.tail)
  {
    e := new Engine();
    e.q := Queue(LIMIT, LIMIT + 1, LIMIT + 1, 5, map[LIMIT := TAKEN], map[LIMIT / SEG_SLOTS := U64_MAX],
                 Pages(true, {}, {}));
    Beyond(e.q.slots, LIMIT, LIMIT + 1, LIMIT);
    assert forall seg :: Live(e.q, seg) ==> seg == LIMIT / SEG_SLOTS;
    found, pos, back := e.Scan(20);
  }
}
