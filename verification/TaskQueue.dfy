/** The scheduler's priority queue: a binary heap whose comparison depends on the clock. Times are nanoseconds. */
module TaskQueue {
  import opened Basics
  import opened Wrappers

  const PRIORITY_CRITICAL := 100
  const PRIORITY_HIGH := 75
  const PRIORITY_NORMAL := 50
  const PRIORITY_BACKGROUND := 25

  const MAX_ESCALATION := 25
  const TEN_SECONDS := 10_000_000_000

  class QueuedTask {
    const priority: int
    const enqueuedAt: int
    var index: int

    constructor (priority: int, enqueuedAt: int)
      ensures this.priority == priority && this.enqueuedAt == enqueuedAt
    {
      this.priority, this.enqueuedAt, index := priority, enqueuedAt, 0;
    }
  }

  /** One point per ten seconds waited, at most 25. */
  function Escalation(waited: int): int {
    var e := Truncate(waited, TEN_SECONDS);
    if e > MAX_ESCALATION then MAX_ESCALATION else e
  }

  function EffectivePriority(t: QueuedTask, now: int): int {
    t.priority + Escalation(now - t.enqueuedAt)
  }

  /** a is dequeued before b when the clock reads ta for a's effective priority and tb for b's. */
  predicate LessAt(a: QueuedTask, b: QueuedTask, ta: int, tb: int) {
    var pa, pb := EffectivePriority(a, ta), EffectivePriority(b, tb);
    if pa != pb then pa > pb else a.enqueuedAt < b.enqueuedAt
  }

  /** a is dequeued before b at time now. */
  predicate Less(a: QueuedTask, b: QueuedTask, now: int) {
    LessAt(a, b, now, now)
  }

  /** Waiting longer never lowers the escalation. */
  lemma EscalationMonotone(x: int, y: int)
    requires x <= y
    ensures Escalation(x) <= Escalation(y)
  {
  }

  /** Not being dequeued after is transitive. */
  lemma NotLessTransitive(a: QueuedTask, b: QueuedTask, c: QueuedTask, now: int)
    ensures !Less(b, a, now) && !Less(c, b, now) ==> !Less(c, a, now)
    ensures Less(b, a, now) ==> !Less(a, b, now)
  {
    hide EffectivePriority;
  }

  // ---------- The order over time ----------

  /**
    Within one band the comparison never puts the later task first, and puts the earlier first whenever its two clock
    readings are no further apart than the two tasks.
   */
  lemma SameBandIsFifo(a: QueuedTask, b: QueuedTask, ta: int, tb: int)
    requires a.priority == b.priority && ta <= tb
    ensures LessAt(a, b, ta, tb) ==> a.enqueuedAt < b.enqueuedAt
    ensures a.enqueuedAt < b.enqueuedAt && tb - ta <= b.enqueuedAt - a.enqueuedAt ==> LessAt(a, b, ta, tb)
  {
    hide Escalation;
    if ta - a.enqueuedAt <= tb - b.enqueuedAt {
      EscalationMonotone(ta - a.enqueuedAt, tb - b.enqueuedAt);
    }
    if tb - b.enqueuedAt <= ta - a.enqueuedAt {
      EscalationMonotone(tb - b.enqueuedAt, ta - a.enqueuedAt);
    }
  }

  /**
    Of two tasks of one band the earlier goes first under all readings at most d apart exactly when d is at most the
    time between them.
   */
  lemma SkewToleratedExactly(a: QueuedTask, b: QueuedTask, d: nat)
    requires a.priority == b.priority && a.enqueuedAt < b.enqueuedAt
    ensures (forall ta, tb :: ta <= tb <= ta + d ==> LessAt(a, b, ta, tb)) <==> d <= b.enqueuedAt - a.enqueuedAt
  {
    if d <= b.enqueuedAt - a.enqueuedAt {
      forall ta, tb | ta <= tb <= ta + d ensures LessAt(a, b, ta, tb) {
        SameBandIsFifo(a, b, ta, tb);
      }
    } else {
      SkewedReadingsReorder(a, b);
    }
  }

  /** Readings one nanosecond further apart than the tasks can put the later of two equals first. */
  lemma SkewedReadingsReorder(a: QueuedTask, b: QueuedTask)
    requires a.priority == b.priority
    ensures !LessAt(a, b, a.enqueuedAt + TEN_SECONDS - 1, b.enqueuedAt + TEN_SECONDS)
  {
  }

  predicate IsBand(p: int) {
    p == PRIORITY_CRITICAL || p == PRIORITY_HIGH || p == PRIORITY_NORMAL || p == PRIORITY_BACKGROUND
  }

  /**
    A task goes before one of a higher band only when the bands are neighbours, it has escalated fully, the other has
    not escalated at all, and so the two tie exactly.
   */
  lemma HigherBandYieldsOnlyOnTie(a: QueuedTask, b: QueuedTask, ta: int, tb: int)
    requires IsBand(a.priority) && IsBand(b.priority) && a.priority < b.priority
    requires b.enqueuedAt <= ta <= tb
    ensures LessAt(a, b, ta, tb) ==>
              && EffectivePriority(a, ta) == EffectivePriority(b, tb)
              && b.priority == a.priority + MAX_ESCALATION
              && ta - a.enqueuedAt >= MAX_ESCALATION * TEN_SECONDS && tb - b.enqueuedAt < TEN_SECONDS
              && a.enqueuedAt < b.enqueuedAt
  {
  }

  /**
    From time t on, c may come to precede p, which it does not precede now: its band is higher, and any lead p has by
    waiting ends; or its band is the next lower one and it will have escalated fully before p escalates at all.
   */
  predicate MayOvertake(c: QueuedTask, p: QueuedTask, t: int) {
    || p.priority < c.priority
    || (&& p.priority == c.priority + MAX_ESCALATION
        && t < p.enqueuedAt + TEN_SECONDS && c.enqueuedAt + (MAX_ESCALATION - 1) * TEN_SECONDS < p.enqueuedAt)
  }

  /** The first time from t on at which c precedes p, if it may overtake it. */
  function OvertakesAt(c: QueuedTask, p: QueuedTask, t: int): int {
    var ripe := c.enqueuedAt + if p.priority < c.priority then TEN_SECONDS else MAX_ESCALATION * TEN_SECONDS;
    if t < ripe then ripe else t
  }

  lemma Overtakes(c: QueuedTask, p: QueuedTask, t: int)
    requires IsBand(c.priority) && IsBand(p.priority) && c.enqueuedAt <= t && p.enqueuedAt <= t
    requires MayOvertake(c, p, t) && !Less(c, p, t)
    ensures OvertakesAt(c, p, t) >= t && Less(c, p, OvertakesAt(c, p, t))
  {
  }

  lemma NeverOvertakes(c: QueuedTask, p: QueuedTask, t: int, later: int)
    requires IsBand(c.priority) && IsBand(p.priority) && p.enqueuedAt <= t <= later
    requires !MayOvertake(c, p, t) && !Less(c, p, t)
    ensures !Less(c, p, later)
  {
    if c.priority == p.priority {
      SameBandIsFifo(c, p, t, t);
      SameBandIsFifo(c, p, later, later);
    } else {
      HigherBandYieldsOnlyOnTie(c, p, later, later);
    }
  }

  /** A task that does not precede another now never will, exactly when it may not overtake it. */
  lemma StaysBehindExactly(c: QueuedTask, p: QueuedTask, t: int)
    requires IsBand(c.priority) && IsBand(p.priority) && c.enqueuedAt <= t && p.enqueuedAt <= t && !Less(c, p, t)
    ensures (forall later :: t <= later ==> !Less(c, p, later)) <==> !MayOvertake(c, p, t)
  {
    if MayOvertake(c, p, t) {
      Overtakes(c, p, t);
    } else {
      forall later | t <= later ensures !Less(c, p, later) {
        NeverOvertakes(c, p, t, later);
      }
    }
  }

  /**
    A queue in heap order stays so for all time, with nothing pushed or popped, exactly when no task may overtake its
    parent.
   */
  lemma OrderLastsExactly(s: seq<QueuedTask>, t: int)
    requires HeapOrdered(s, t) && forall i :: 0 <= i < |s| ==> IsBand(s[i].priority) && s[i].enqueuedAt <= t
    ensures (forall later :: t <= later ==> HeapOrdered(s, later)) <==>
            forall j :: 0 < j < |s| ==> !MayOvertake(s[j], s[Parent(j)], t)
  {
    hide IsBand, MayOvertake, Less;
    if forall later :: t <= later ==> HeapOrdered(s, later) {
      forall j | 0 < j < |s| ensures !MayOvertake(s[j], s[Parent(j)], t) {
        assert BelowParent(s, t, j);
        forall later | t <= later ensures !Less(s[j], s[Parent(j)], later) {
          assert HeapOrdered(s, later) && BelowParent(s, later, j);
        }
        StaysBehindExactly(s[j], s[Parent(j)], t);
      }
    }
    if forall j :: 0 < j < |s| ==> !MayOvertake(s[j], s[Parent(j)], t) {
      forall later | t <= later ensures HeapOrdered(s, later) {
        forall j | 0 < j < |s| ensures BelowParent(s, later, j) {
          assert BelowParent(s, t, j);
          NeverOvertakes(s[j], s[Parent(j)], t, later);
        }
      }
    }
  }

  /** A heap in order at 249 s is out of order one second later, though nothing was pushed or popped. */
  lemma EscalationUndoesOrder(high: QueuedTask, normal: QueuedTask)
    requires high.priority == PRIORITY_HIGH && high.enqueuedAt == 249_000_000_000
    requires normal.priority == PRIORITY_NORMAL && normal.enqueuedAt == 0
    ensures HeapOrdered([high, normal], 249_000_000_000) && !HeapOrdered([high, normal], 250_000_000_000)
    ensures MayOvertake(normal, high, 249_000_000_000)
  {
    assert !BelowParent([high, normal], 250_000_000_000, 1);
  }

  // ---------- Clock readings within one operation ----------

  /** All readings between from and to compare a and b as the readings at from do. */
  ghost predicate SamePair(a: QueuedTask, b: QueuedTask, from: int, to: int) {
    forall ta, tb :: from <= ta <= tb <= to ==> (LessAt(a, b, ta, tb) <==> LessAt(a, b, from, from))
  }

  /** No comparison of these tasks depends on when, between from and to, the clock is read. */
  ghost predicate Settled(s: seq<QueuedTask>, from: int, to: int) {
    forall a, b :: a in s && b in s ==> SamePair(a, b, from, to)
  }

  /** Tasks enqueued at different times were enqueued at least d apart. */
  ghost predicate Spaced(s: seq<QueuedTask>, d: int) {
    forall a, b :: a in s && b in s && a.enqueuedAt < b.enqueuedAt ==> d <= b.enqueuedAt - a.enqueuedAt
  }

  lemma FixedClockSettled(s: seq<QueuedTask>, now: int)
    ensures Settled(s, now, now)
  {
  }

  /** A queue of one band is settled while an operation takes no longer than the time between its tasks. */
  lemma OneBandSettled(s: seq<QueuedTask>, from: int, to: int)
    requires OneBand(s) && Spaced(s, to - from)
    ensures Settled(s, from, to)
  {
    forall a, b | a in s && b in s ensures SamePair(a, b, from, to) {
      forall ta, tb | from <= ta <= tb <= to ensures LessAt(a, b, ta, tb) <==> LessAt(a, b, from, from) {
        SameBandIsFifo(a, b, ta, tb);
        SameBandIsFifo(a, b, from, from);
      }
    }
  }

  lemma SettledOrder(s: seq<QueuedTask>, from: int, to: int)
    requires Settled(s, from, to) && from <= to && HeapOrdered(s, from)
    ensures HeapOrdered(s, to)
  {
    forall j | 0 < j < |s| ensures BelowParent(s, to, j) {
      assert BelowParent(s, from, j);
      assert SamePair(s[j], s[Parent(j)], from, to);
    }
  }

  lemma SettledPart(s: seq<QueuedTask>, part: seq<QueuedTask>, from: int, to: int)
    requires forall t :: t in part ==> t in s
    ensures Settled(s, from, to) ==> Settled(part, from, to)
    ensures forall d :: Spaced(s, d) ==> Spaced(part, d)
  {
  }

  method ReadClock(from: int, to: int) returns (now: int)
    requires from <= to
    ensures from <= now <= to
  {
    now := *;
    if now < from || to < now {
      now := from;
    }
  }

  /** One comparison: the clock is read for a, then for b. */
  method Compare(a: QueuedTask, b: QueuedTask, from: int, to: int) returns (less: bool)
    requires from <= to
    ensures SamePair(a, b, from, to) ==> less == Less(a, b, from)
    ensures exists ta, tb :: from <= ta <= tb <= to && less == LessAt(a, b, ta, tb)
  {
    var ta := ReadClock(from, to);
    var tb := ReadClock(ta, to);
    less := LessAt(a, b, ta, tb);
  }

  // ---------- Heaps ----------

  function Parent(j: int): int {
    (j - 1) / 2
  }

  /** Entry j does not precede its parent. */
  ghost predicate BelowParent(s: seq<QueuedTask>, now: int, j: int)
    requires 0 < j < |s|
  {
    !Less(s[j], s[Parent(j)], now)
  }

  /** Entry j does not precede its grandparent, if it has one. */
  ghost predicate BelowGrandparent(s: seq<QueuedTask>, now: int, j: int)
    requires 0 < j < |s|
  {
    Parent(j) > 0 ==> !Less(s[j], s[Parent(Parent(j))], now)
  }

  /** No task precedes its parent. */
  ghost predicate HeapOrdered(s: seq<QueuedTask>, now: int) {
    forall j :: 0 < j < |s| ==> BelowParent(s, now, j)
  }

  lemma {:induction false} RootIsFirst(s: seq<QueuedTask>, now: int, i: nat)
    requires HeapOrdered(s, now) && i < |s|
    ensures !Less(s[i], s[0], now)
  {
    if i > 0 {
      RootIsFirst(s, now, Parent(i));
      assert BelowParent(s, now, i);
      NotLessTransitive(s[0], s[Parent(i)], s[i], now);
    }
  }

  ghost predicate OneBand(s: seq<QueuedTask>) {
    forall i, j :: 0 <= i < |s| && 0 <= j < |s| ==> s[i].priority == s[j].priority
  }

  /** In a queue of one band, being in heap order does not depend on the time. */
  lemma OneBandOrderTimeless(s: seq<QueuedTask>, t1: int, t2: int)
    requires OneBand(s) && HeapOrdered(s, t1)
    ensures HeapOrdered(s, t2)
  {
    forall j | 0 < j < |s| ensures BelowParent(s, t2, j) {
      assert BelowParent(s, t1, j);
      SameBandIsFifo(s[j], s[Parent(j)], t1, t1);
      SameBandIsFifo(s[j], s[Parent(j)], t2, t2);
    }
  }

  ghost function NonCritical(s: seq<QueuedTask>): set<QueuedTask> {
    set t | t in s && t.priority < PRIORITY_CRITICAL
  }

  function Swapped(s: seq<QueuedTask>, i: nat, j: nat): seq<QueuedTask>
    requires i < |s| && j < |s|
  {
    s[i := s[j]][j := s[i]]
  }

  lemma SwapPermutes(s: seq<QueuedTask>, i: nat, j: nat)
    requires i < |s| && j < |s|
    ensures multiset(Swapped(s, i, j)) == multiset(s)
  {
  }

  // ---------- Sifting ----------

  /** Heap order, except that entry hole may precede its parent; its children do not precede that parent. */
  ghost predicate OrderedButUp(s: seq<QueuedTask>, now: int, hole: int) {
    && (forall j :: 0 < j < |s| && j != hole ==> BelowParent(s, now, j))
    && (forall j :: 0 < j < |s| && Parent(j) == hole ==> BelowGrandparent(s, now, j))
  }

  /** Heap order on the first n tasks, except that children of hole may precede it; they do not precede its parent. */
  ghost predicate OrderedButDown(s: seq<QueuedTask>, n: int, now: int, hole: int)
    requires n <= |s|
  {
    && (forall j :: 0 < j < n && Parent(j) != hole ==> BelowParent(s, now, j))
    && (forall j :: 0 < j < n && Parent(j) == hole ==> BelowGrandparent(s, now, j))
  }

  lemma UpStep(s: seq<QueuedTask>, now: int, j: int)
    requires 0 < j < |s| && OrderedButUp(s, now, j) && Less(s[j], s[Parent(j)], now)
    ensures OrderedButUp(Swapped(s, Parent(j), j), now, Parent(j))
  {
    hide Less, LessAt;
    var i := Parent(j);
    var r := Swapped(s, i, j);
    NotLessTransitive(s[i], s[j], s[j], now);
    forall k | 0 < k < |r| && k != i ensures BelowParent(r, now, k) {
      if k != j {
        assert BelowParent(s, now, k);
      }
      if Parent(k) == j {
        assert BelowGrandparent(s, now, k);
      }
      if Parent(k) == i && k != j {
        NotLessTransitive(s[j], s[i], s[k], now);
      }
    }
    forall k | 0 < k < |r| && Parent(k) == i ensures BelowGrandparent(r, now, k) {
      if i > 0 {
        assert BelowParent(s, now, i);
        if k != j {
          assert BelowParent(s, now, k);
          NotLessTransitive(s[Parent(i)], s[i], s[k], now);
        }
      }
    }
  }

  lemma UpDone(s: seq<QueuedTask>, now: int, j: int)
    requires 0 <= j < |s| && OrderedButUp(s, now, j) && (j == 0 || !Less(s[j], s[Parent(j)], now))
    ensures HeapOrdered(s, now)
  {
  }

  lemma DownStep(s: seq<QueuedTask>, n: int, now: int, i: int, j: int)
    requires 0 <= i < n <= |s| && 0 < j < n && Parent(j) == i && OrderedButDown(s, n, now, i)
    requires Less(s[j], s[i], now)
    requires forall k :: 0 < k < n && Parent(k) == i ==> !Less(s[k], s[j], now)
    ensures OrderedButDown(Swapped(s, i, j), n, now, j)
  {
    hide Less, LessAt;
    var r := Swapped(s, i, j);
    NotLessTransitive(s[i], s[j], s[j], now);
    forall k | 0 < k < n && Parent(k) != j ensures BelowParent(r, now, k) {
      if k == i {
        assert BelowGrandparent(s, now, j);
      } else if Parent(k) != i {
        assert BelowParent(s, now, k);
      }
    }
    forall k | 0 < k < n && Parent(k) == j ensures BelowGrandparent(r, now, k) {
      assert BelowParent(s, now, k);
    }
  }

  lemma DownDone(s: seq<QueuedTask>, n: int, now: int, i: int)
    requires 0 <= i < n <= |s| && OrderedButDown(s, n, now, i)
    requires forall k :: 0 < k < n && Parent(k) == i ==> !Less(s[k], s[i], now)
    ensures HeapOrdered(s[..n], now)
  {
    forall j | 0 < j < n ensures BelowParent(s[..n], now, j) {
      if Parent(j) != i {
        assert BelowParent(s, now, j);
      }
    }
  }

  /** The child that down compares with its parent: the one the other does not precede. */
  lemma FirstChild(s: seq<QueuedTask>, n: int, now: int, i: int, j: int)
    requires 0 <= i < n <= |s| && 2 * i + 1 < n
    requires j == if 2 * i + 2 < n && Less(s[2 * i + 2], s[2 * i + 1], now) then 2 * i + 2 else 2 * i + 1
    ensures forall k :: 0 < k < n && Parent(k) == i ==> !Less(s[k], s[j], now)
  {
    NotLessTransitive(s[2 * i + 1], s[j], s[j], now);
    forall k | 0 < k < n && Parent(k) == i ensures k == 2 * i + 1 || k == 2 * i + 2 {
    }
  }

  class PriorityQueue {
    const cap: int
    var heap: seq<QueuedTask>

    constructor (capacity: int)
      ensures cap == capacity && heap == [] && Valid()
    {
      cap, heap := capacity, [];
    }

    /** Each task is in the heap once and knows its position. */
    ghost predicate Valid()
      reads this, heap
    {
      && (forall i, j :: 0 <= i < j < |heap| ==> heap[i] != heap[j])
      && forall i :: 0 <= i < |heap| ==> heap[i].index == i
    }

    ghost function Tasks(): set<QueuedTask>
      reads this
    {
      set t | t in heap
    }

    method Swap(i: nat, j: nat)
      requires Valid() && i < |heap| && j < |heap|
      modifies this`heap, {heap[i], heap[j]}
      ensures Valid() && heap == Swapped(old(heap), i, j)
    {
      heap := heap[i := heap[j]][j := heap[i]];
      heap[i].index := i;
      heap[j].index := j;
    }

    /** container/heap's up. The comparisons read the clock at any times between from and to. */
    method Up(start: nat, from: int, to: int)
      requires Valid() && start < |heap| && from <= to
      modifies this`heap, Tasks()
      ensures Valid() && multiset(heap) == multiset(old(heap)) && |heap| == |old(heap)|
      ensures old(Settled(heap, from, to) && OrderedButUp(heap, from, start)) ==> HeapOrdered(heap, from)
    {
      hide Less, LessAt, OrderedButUp, HeapOrdered, Swapped, Valid, Settled;
      var j := start;
      while true
        invariant Valid() && 0 <= j < |heap| == |old(heap)| && multiset(heap) == multiset(old(heap))
        invariant Tasks() == old(Tasks())
        invariant old(Settled(heap, from, to)) ==> Settled(heap, from, to)
        invariant old(Settled(heap, from, to) && OrderedButUp(heap, from, start)) ==> OrderedButUp(heap, from, j)
        decreases j
      {
        var i := if j == 0 then 0 else Parent(j);
        var less := false;
        if i != j {
          less := Compare(heap[j], heap[i], from, to);
          SettledPair(heap, j, i, from, to);
        }
        if !less {
          break;
        }
        if Settled(heap, from, to) && OrderedButUp(heap, from, j) {
          UpStep(heap, from, j);
        }
        ghost var before := heap;
        Swap(i, j);
        SwapKeeps(before, i, j, |before|);
        SettledPart(before, heap, from, to);
        j := i;
      }
      if Settled(heap, from, to) && OrderedButUp(heap, from, j) {
        UpDone(heap, from, j);
      }
    }

    /** The child of i that down compares it with. */
    method ChooseChild(i: int, n: int, from: int, to: int) returns (j: int)
      requires 0 <= i && 2 * i + 1 < n <= |heap| && from <= to
      ensures 0 < j < n && Parent(j) == i
      ensures Settled(heap, from, to) ==> forall k :: 0 < k < n && Parent(k) == i ==> !Less(heap[k], heap[j], from)
    {
      hide Less, LessAt, Settled;
      var j1 := 2 * i + 1;
      j := j1;
      var j2 := j1 + 1;
      if j2 < n {
        var less := Compare(heap[j2], heap[j1], from, to);
        SettledPair(heap, j2, j1, from, to);
        if less {
          j := j2;
        }
      }
      if Settled(heap, from, to) {
        FirstChild(heap, n, from, i, j);
      }
    }

    /** One step of down: swaps position i with its chosen child unless that child does not precede it. */
    method DownOnce(i: int, n: int, from: int, to: int) returns (j: int)
      requires Valid() && 0 <= i && 2 * i + 1 < n <= |heap| && from <= to
      modifies this`heap, Tasks()
      ensures Valid() && i <= j < n
      ensures heap == if j == i then old(heap) else Swapped(old(heap), i, j)
      ensures old(Settled(heap, from, to)) && j == i ==>
                forall k :: 0 < k < n && Parent(k) == i ==> !Less(heap[k], heap[i], from)
      ensures j != i && old(Settled(heap, from, to) && OrderedButDown(heap, n, from, i)) ==>
                OrderedButDown(heap, n, from, j)
    {
      hide Less, LessAt, OrderedButDown, Settled;
      j := ChooseChild(i, n, from, to);
      var less := Compare(heap[j], heap[i], from, to);
      SettledPair(heap, j, i, from, to);
      if !less {
        if Settled(heap, from, to) {
          NoChildPrecedes(heap, n, from, i, j);
        }
        return i;
      }
      if Settled(heap, from, to) && OrderedButDown(heap, n, from, i) {
        DownStep(heap, n, from, i, j);
      }
      Swap(i, j);
    }

    /** container/heap's down, on the first n tasks. */
    method Down(n: int, from: int, to: int)
      requires Valid() && 0 < n <= |heap| && from <= to
      modifies this`heap, Tasks()
      ensures Valid() && multiset(heap) == multiset(old(heap)) && |heap| == |old(heap)|
      ensures heap[n..] == old(heap)[n..]
      ensures old(Settled(heap, from, to) && OrderedButDown(heap, n, from, 0)) ==> HeapOrdered(heap[..n], from)
    {
      hide Less, LessAt, OrderedButDown, HeapOrdered, Swapped, Valid, Settled;
      var i := 0;
      while 2 * i + 1 < n
        invariant Valid() && 0 <= i < n <= |heap| == |old(heap)| && multiset(heap) == multiset(old(heap))
        invariant Tasks() == old(Tasks())
        invariant heap[n..] == old(heap)[n..]
        invariant old(Settled(heap, from, to)) ==> Settled(heap, from, to)
        invariant old(Settled(heap, from, to) && OrderedButDown(heap, n, from, 0)) ==> OrderedButDown(heap, n, from, i)
        decreases n - i
      {
        ghost var before := heap;
        var j := DownOnce(i, n, from, to);
        if j == i {
          break;
        }
        SwapKeeps(before, i, j, n);
        SettledPart(before, heap, from, to);
        i := j;
      }
      if Settled(heap, from, to) && OrderedButDown(heap, n, from, i) {
        DownDone(heap, n, from, i);
      }
    }

    /** Refused only at capacity and below critical priority; otherwise qt joins the queue. */
    method Push(qt: QueuedTask, from: int, to: int) returns (full: bool)
      requires Valid() && qt !in heap && from <= to
      modifies this`heap, Tasks(), qt
      ensures Valid()
      ensures full <==> |old(heap)| >= cap && qt.priority < PRIORITY_CRITICAL
      ensures full ==> heap == old(heap)
      ensures !full ==> multiset(heap) == multiset(old(heap)) + multiset{qt}
      ensures old(HeapOrdered(heap, from)) && Settled(old(heap) + [qt], from, to) ==> HeapOrdered(heap, to)
      ensures old(Fifo(heap)) && OneBand(heap) && Spaced(old(heap) + [qt], to - from) ==> Fifo(heap)
      ensures |old(NonCritical(heap))| <= Limit() ==> |NonCritical(heap)| <= Limit()
    {
      hide HeapOrdered, OrderedButUp, NonCritical, OneBand, Settled, Spaced, Valid;
      full := |heap| >= cap && qt.priority < PRIORITY_CRITICAL;
      if full {
        RefusedKeeps(heap, qt, from, to);
        return;
      }
      ghost var before := heap;
      Append(qt);
      ghost var pushed := heap;
      AppendOrdered(before, qt);
      Up(|heap| - 1, from, to);
      AdmissionBound(before, qt, heap, cap);
      PushedOrder(before, qt, heap, from, to);
    }

    /** The heap's own Push. */
    method Append(qt: QueuedTask)
      requires Valid() && qt !in heap
      modifies this`heap, qt
      ensures Valid() && heap == old(heap) + [qt]
    {
      qt.index := |heap|;
      heap := heap + [qt];
    }

    /** Swaps the front to the end and restores the order of the rest. */
    method FrontToEnd(from: int, to: int)
      requires Valid() && heap != [] && from <= to
      modifies this`heap, Tasks()
      ensures Valid() && |heap| == |old(heap)| && multiset(heap) == multiset(old(heap)) && Tasks() == old(Tasks())
      ensures heap[|heap| - 1] == old(heap)[0]
      ensures old(HeapOrdered(heap, from) && Settled(heap, from, to)) ==> HeapOrdered(heap[..|heap| - 1], from)
    {
      hide Valid, HeapOrdered, OrderedButDown, Swapped, Settled;
      var n := |heap| - 1;
      ghost var before := heap;
      SwapEndOrdered(heap, from);
      Swap(0, n);
      SwapKeeps(before, 0, n, |before|);
      SettledPart(before, heap, from, to);
      if n > 0 {
        ghost var swapped := heap;
        Down(n, from, to);
        SameTasks(heap, swapped);
        LastKept(heap, swapped, n);
      } else {
        AtMostOne(heap[..n], from);
      }
    }

    /** The heap's own Pop: cuts off the last task and marks it removed. */
    method TakeLast() returns (item: QueuedTask)
      requires Valid() && heap != []
      modifies this`heap, Tasks()
      ensures Valid() && heap == old(heap)[..|old(heap)| - 1]
      ensures item == old(heap)[|old(heap)| - 1] && item.index == -1 && item !in heap
    {
      var n := |heap| - 1;
      item := heap[n];
      heap := heap[..n];
      item.index := -1;
    }

    /** Removes and returns the front of the heap. */
    method Pop(from: int, to: int) returns (r: Option<QueuedTask>)
      requires Valid() && from <= to
      modifies this`heap, Tasks()
      ensures Valid()
      ensures r.None? <==> old(heap) == []
      ensures r.None? ==> heap == []
      ensures r.Some? ==> r.value == old(heap)[0] && r.value !in heap && r.value.index == -1
      ensures r.Some? ==> multiset(heap) + multiset{r.value} == multiset(old(heap))
      ensures r.Some? && old(HeapOrdered(heap, from)) ==> forall x :: x in old(heap) ==> !Less(x, r.value, from)
      ensures r.Some? && old(HeapOrdered(heap, from) && Settled(heap, from, to)) ==> HeapOrdered(heap, to)
      ensures r.Some? && old(Fifo(heap)) ==> forall x :: x in old(heap) ==> r.value.enqueuedAt <= x.enqueuedAt
      ensures r.Some? && old(Fifo(heap) && Spaced(heap, to - from)) ==> Fifo(heap)
      ensures |old(NonCritical(heap))| <= Limit() ==> |NonCritical(heap)| <= Limit()
    {
      hide HeapOrdered, NonCritical, Less, LessAt, Fifo, Valid, Settled, Spaced;
      if |heap| == 0 {
        return None;
      }
      ghost var before := heap;
      FrontToEnd(from, to);
      ghost var all := heap;
      var item := TakeLast();
      assert all == heap + [item];
      r := Some(item);
      FrontPopped(before, heap, item, from, to);
    }

    /** The admission limit on tasks below critical priority. */
    ghost function Limit(): int {
      if cap > 0 then cap else 0
    }
  }

  /** In heap order, all tasks of one band; the time does not matter (OneBandOrderTimeless). */
  ghost predicate Fifo(s: seq<QueuedTask>) {
    OneBand(s) && HeapOrdered(s, 0)
  }

  lemma AppendOrdered(s: seq<QueuedTask>, t: QueuedTask)
    ensures forall now :: HeapOrdered(s, now) ==> OrderedButUp(s + [t], now, |s|)
  {
    forall now | HeapOrdered(s, now) ensures OrderedButUp(s + [t], now, |s|) {
      forall j | 0 < j < |s + [t]| && j != |s| ensures BelowParent(s + [t], now, j) {
        assert BelowParent(s, now, j);
      }
    }
  }

  lemma SameBand(s: seq<QueuedTask>, part: seq<QueuedTask>)
    requires OneBand(s) && forall t :: t in part ==> t in s
    ensures OneBand(part)
  {
    forall i, j | 0 <= i < |part| && 0 <= j < |part| ensures part[i].priority == part[j].priority {
      assert part[i] in s && part[j] in s;
    }
  }

  /** A task below critical priority is admitted only while the whole queue is shorter than the limit. */
  lemma AdmissionBound(before: seq<QueuedTask>, qt: QueuedTask, after: seq<QueuedTask>, cap: int)
    requires multiset(after) == multiset(before + [qt])
    requires |before| < cap || qt.priority >= PRIORITY_CRITICAL
    ensures var limit := if cap > 0 then cap else 0;
            |NonCritical(before)| <= limit ==> |NonCritical(after)| <= limit
  {
    SameTasks(after, before + [qt]);
    if qt.priority >= PRIORITY_CRITICAL {
      assert NonCritical(after) == NonCritical(before);
    } else {
      ElementCount(after);
      SubsetSize(NonCritical(after), set t | t in after);
      assert |after| == |multiset(after)| == |before| + 1;
    }
  }

  lemma LastKept(a: seq<QueuedTask>, b: seq<QueuedTask>, n: nat)
    requires |a| == |b| == n + 1 && a[n..] == b[n..]
    ensures a[n] == b[n]
  {
    assert a[n] == a[n..][0];
  }

  /** With the last task moved to the front, only the front can be out of order. */
  lemma SwapEndOrdered(s: seq<QueuedTask>, now: int)
    requires s != []
    ensures HeapOrdered(s, now) ==> OrderedButDown(Swapped(s, 0, |s| - 1), |s| - 1, now, 0)
  {
    var n := |s| - 1;
    if HeapOrdered(s, now) {
      forall j | 0 < j < n && Parent(j) != 0 ensures BelowParent(Swapped(s, 0, n), now, j) {
        assert BelowParent(s, now, j);
      }
    }
  }

  lemma AtMostOne(s: seq<QueuedTask>, now: int)
    requires |s| <= 1
    ensures HeapOrdered(s, now)
  {
  }

  lemma FrontPopped(before: seq<QueuedTask>, after: seq<QueuedTask>, t: QueuedTask, from: int, to: int)
    requires before != [] && t == before[0] && multiset(after) + multiset{t} == multiset(before) && from <= to
    requires HeapOrdered(before, from) && Settled(before, from, to) ==> HeapOrdered(after, from)
    ensures HeapOrdered(before, from) ==> forall x :: x in before ==> !Less(x, t, from)
    ensures HeapOrdered(before, from) && Settled(before, from, to) ==> HeapOrdered(after, to)
    ensures Fifo(before) ==> forall x :: x in before ==> t.enqueuedAt <= x.enqueuedAt
    ensures Fifo(before) && Spaced(before, to - from) ==> Fifo(after)
    ensures |NonCritical(after)| <= |NonCritical(before)|
  {
    hide Settled, HeapOrdered, Less, LessAt, Spaced, OneBand;
    SameTasks(after + [t], before);
    SettledPart(before, after, from, to);
    if HeapOrdered(before, from) {
      FrontFirst(before, from);
      if Settled(before, from, to) {
        SettledOrder(after, from, to);
      }
    }
    if Fifo(before) {
      FrontOldest(before);
      if Spaced(before, to - from) {
        OneBandSettled(before, from, to);
        OneBandOrderTimeless(before, 0, from);
        SameBand(before, after);
        OneBandOrderTimeless(after, from, 0);
      }
    }
    SubsetSize(NonCritical(after), NonCritical(before));
  }

  lemma FrontFirst(s: seq<QueuedTask>, now: int)
    requires s != [] && HeapOrdered(s, now)
    ensures forall x :: x in s ==> !Less(x, s[0], now)
  {
    forall x | x in s ensures !Less(x, s[0], now) {
      var i :| 0 <= i < |s| && s[i] == x;
      RootIsFirst(s, now, i);
    }
  }

  lemma FrontOldest(s: seq<QueuedTask>)
    requires s != [] && Fifo(s)
    ensures forall x :: x in s ==> s[0].enqueuedAt <= x.enqueuedAt
  {
    FrontFirst(s, 0);
    forall x | x in s ensures s[0].enqueuedAt <= x.enqueuedAt {
      SameBandIsFifo(x, s[0], 0, 0);
    }
  }

  lemma RefusedKeeps(s: seq<QueuedTask>, qt: QueuedTask, from: int, to: int)
    requires from <= to
    ensures HeapOrdered(s, from) && Settled(s + [qt], from, to) ==> HeapOrdered(s, to)
  {
    SettledPart(s + [qt], s, from, to);
    if HeapOrdered(s, from) && Settled(s + [qt], from, to) {
      SettledOrder(s, from, to);
    }
  }

  lemma PushedOrder(before: seq<QueuedTask>, qt: QueuedTask, after: seq<QueuedTask>, from: int, to: int)
    requires multiset(after) == multiset(before + [qt]) && from <= to
    requires HeapOrdered(before, from) && Settled(before + [qt], from, to) ==> HeapOrdered(after, from)
    ensures HeapOrdered(before, from) && Settled(before + [qt], from, to) ==> HeapOrdered(after, to)
    ensures Fifo(before) && OneBand(after) && Spaced(before + [qt], to - from) ==> Fifo(after)
  {
    hide HeapOrdered, Settled, Spaced, OneBand;
    SameTasks(after, before + [qt]);
    SettledPart(before + [qt], after, from, to);
    if HeapOrdered(before, from) && Settled(before + [qt], from, to) {
      SettledOrder(after, from, to);
    }
    if Fifo(before) && OneBand(after) && Spaced(before + [qt], to - from) {
      SameBand(after, before + [qt]);
      OneBandSettled(before + [qt], from, to);
      OneBandOrderTimeless(before, 0, from);
      OneBandOrderTimeless(after, from, 0);
    }
  }

  lemma SettledPair(s: seq<QueuedTask>, i: int, j: int, from: int, to: int)
    requires 0 <= i < |s| && 0 <= j < |s|
    ensures Settled(s, from, to) ==> SamePair(s[i], s[j], from, to)
  {
  }

  lemma SwapKeeps(s: seq<QueuedTask>, i: nat, j: nat, n: nat)
    requires i < n <= |s| && j < n
    ensures Swapped(s, i, j)[j] == s[i]
    ensures |Swapped(s, i, j)| == |s| && multiset(Swapped(s, i, j)) == multiset(s) && Swapped(s, i, j)[n..] == s[n..]
    ensures forall t :: t in Swapped(s, i, j) <==> t in s
  {
    SwapPermutes(s, i, j);
    SameTasks(Swapped(s, i, j), s);
  }

  lemma NoChildPrecedes(s: seq<QueuedTask>, n: int, now: int, i: int, j: int)
    requires 0 <= i < n <= |s| && 0 < j < n && !Less(s[j], s[i], now)
    requires forall k :: 0 < k < n && Parent(k) == i ==> !Less(s[k], s[j], now)
    ensures forall k :: 0 < k < n && Parent(k) == i ==> !Less(s[k], s[i], now)
  {
    forall k | 0 < k < n && Parent(k) == i ensures !Less(s[k], s[i], now) {
      NotLessTransitive(s[i], s[j], s[k], now);
    }
  }

  lemma SameTasks(a: seq<QueuedTask>, b: seq<QueuedTask>)
    requires multiset(a) == multiset(b)
    ensures forall t :: t in a <==> t in b
  {
    assert forall t :: t in a <==> t in multiset(a);
    assert forall t :: t in b <==> t in multiset(b);
  }
}
