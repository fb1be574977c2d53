/** Which due events a relay locks, and in which order. */
module Planner {
  import opened Options
  import opened EventModel
  import opened Sorting

  const MAX_RELAY_BATCH_SIZE := 100
  const LOCK_TIMEOUT_SECONDS := 300

  datatype Candidate = Candidate(id: EventId, row: Row)

  datatype PlanResult = Planned(batch: seq<Candidate>) | InvalidBatchSize

  function PriorityRank(p: Priority): nat {
    match p
    case Critical => 0
    case High => 1
    case Normal => 2
    case Low => 3
    case Background => 4
  }

  /** Urgent first, then oldest first. */
  predicate DispatchLe(a: Candidate, b: Candidate) {
    var ra, rb := PriorityRank(a.row.priority), PriorityRank(b.row.priority);
    ra < rb || (ra == rb && a.row.occurredAt <= b.row.occurredAt)
  }

  predicate FreshlyLocked(row: Row, now: int, timeout: int) {
    row.status == Locked && !(row.lockedAt.Some? && row.lockedAt.value < now - timeout)
  }

  predicate Eligible(row: Row, now: int, timeout: int) {
    && row.availableAt <= now
    && (row.status == Pending || row.status == FailedRetryable
        || (row.status == Locked && !FreshlyLocked(row, now, timeout)))
  }

  function Ready(events: seq<Candidate>, now: int, timeout: int): seq<Candidate> {
    if events == [] then []
    else
      var last := events[|events| - 1];
      Ready(events[..|events| - 1], now, timeout) + (if Eligible(last.row, now, timeout) then [last] else [])
  }

  function Min(a: int, b: int): int { if a < b then a else b }

  function Plan(events: seq<Candidate>, maxBatch: int, now: int, timeout: int): PlanResult {
    if maxBatch < 1 then InvalidBatchSize
    else
      var order := Sort(Ready(events, now, timeout), DispatchLe);
      Planned(order[..Min(maxBatch, |order|)])
  }

  method PlanDispatchBatch(events: seq<Candidate>, maxBatch: int, now: int, timeout: int)
    returns (result: PlanResult)
    ensures result == Plan(events, maxBatch, now, timeout)
  {
    if maxBatch < 1 {
      return InvalidBatchSize;
    }
    var cutoff := now - timeout;
    var ready := [];
    for i := 0 to |events|
      invariant ready == Ready(events[..i], now, timeout)
    {
      assert events[..i + 1][..i] == events[..i];
      var row := events[i].row;
      if row.availableAt > now {
        continue;
      }
      if row.status == Pending || row.status == FailedRetryable {
        ready := ready + [events[i]];
      } else if row.status == Locked && row.lockedAt.Some? && row.lockedAt.value < cutoff {
        ready := ready + [events[i]];
      }
    }
    assert events[..|events|] == events;
    var order := Sort(ready, DispatchLe);
    result := Planned(order[..Min(maxBatch, |order|)]);
  }

  lemma DispatchOrder()
    ensures TotalPreorder(DispatchLe)
  {
  }

  lemma {:induction false} ReadyMembers(events: seq<Candidate>, now: int, timeout: int, c: Candidate)
    ensures c in Ready(events, now, timeout) <==> c in events && Eligible(c.row, now, timeout)
  {
    if events != [] {
      var n := |events| - 1;
      ReadyMembers(events[..n], now, timeout, c);
      assert events == events[..n] + [events[n]];
    }
  }

  ghost predicate DistinctIds(events: seq<Candidate>) {
    forall i, j :: 0 <= i < j < |events| ==> events[i].id != events[j].id
  }

  lemma {:induction false} ReadyDistinct(events: seq<Candidate>, now: int, timeout: int)
    requires DistinctIds(events)
    ensures DistinctIds(Ready(events, now, timeout))
  {
    if events != [] {
      var n := |events| - 1;
      ReadyDistinct(events[..n], now, timeout);
      var rest := Ready(events[..n], now, timeout);
      forall i | 0 <= i < |rest|
        ensures rest[i].id != events[n].id
      {
        ReadyMembers(events[..n], now, timeout, rest[i]);
      }
    }
  }

  lemma {:induction false} InsertDistinct(x: Candidate, s: seq<Candidate>)
    requires DistinctIds(s)
    requires forall i :: 0 <= i < |s| ==> s[i].id != x.id
    ensures DistinctIds(Insert(x, s, DispatchLe))
  {
    if s != [] && !DispatchLe(x, s[0]) {
      InsertDistinct(x, s[1..]);
      InsertPermutes(x, s[1..], DispatchLe);
      var t := Insert(x, s[1..], DispatchLe);
      forall i | 0 <= i < |t|
        ensures t[i].id != s[0].id
      {
        assert t[i] in multiset(t);
        assert t[i] == x || t[i] in s[1..];
      }
    }
  }

  lemma {:induction false} SortDistinct(s: seq<Candidate>)
    requires DistinctIds(s)
    ensures DistinctIds(Sort(s, DispatchLe))
  {
    if s != [] {
      SortDistinct(s[1..]);
      SortMembers(s[1..], DispatchLe);
      var t := Sort(s[1..], DispatchLe);
      forall i | 0 <= i < |t|
        ensures t[i].id != s[0].id
      {
        assert t[i] in t;
      }
      InsertDistinct(s[0], t);
    }
  }

  function SafeBatchSize(batchSize: int): int
    ensures 1 <= SafeBatchSize(batchSize) <= MAX_RELAY_BATCH_SIZE
  {
    var b := Min(batchSize, MAX_RELAY_BATCH_SIZE);
    if b < 1 then 1 else b
  }

  /** The rows `lock_pending_events` looks at: the first `3 * b` due ones. */
  function Window(due: seq<Candidate>, b: int): seq<Candidate>
    requires 1 <= b
  {
    due[..Min(3 * b, |due|)]
  }

  /** The rows it then locks. */
  function Selection(due: seq<Candidate>, batchSize: int, now: int): seq<Candidate> {
    var b := SafeBatchSize(batchSize);
    Plan(Window(due, b), b, now, LOCK_TIMEOUT_SECONDS).batch
  }

  lemma {:induction false} ReadyKeepsBefore(events: seq<Candidate>, now: int, timeout: int, x: Candidate, y: Candidate)
    requires Before(events, x, y) && Eligible(x.row, now, timeout) && Eligible(y.row, now, timeout)
    ensures Before(Ready(events, now, timeout), x, y)
  {
    var i, j :| 0 <= i < j < |events| && events[i] == x && events[j] == y;
    var n := |events| - 1;
    var init := events[..n];
    assert init[i] == x;
    if j < n {
      assert init[j] == y;
      ReadyKeepsBefore(init, now, timeout, x, y);
      var p, q :| 0 <= p < q < |Ready(init, now, timeout)|
               && Ready(init, now, timeout)[p] == x && Ready(init, now, timeout)[q] == y;
      assert Ready(events, now, timeout)[p] == x && Ready(events, now, timeout)[q] == y;
    } else {
      ReadyMembers(init, now, timeout, x);
      var p :| 0 <= p < |Ready(init, now, timeout)| && Ready(init, now, timeout)[p] == x;
      var ready := Ready(events, now, timeout);
      assert ready[p] == x && ready[|ready| - 1] == y;
    }
  }

  /** A row that comes first in the window and is no less urgent, or just as urgent and old, is taken first. */
  lemma EarlierOfTiesIsTaken(due: seq<Candidate>, batchSize: int, now: int, x: Candidate, y: Candidate)
    requires DistinctIds(due) && Before(Window(due, SafeBatchSize(batchSize)), x, y)
    requires Eligible(x.row, now, LOCK_TIMEOUT_SECONDS) && DispatchLe(x, y)
    requires y in Selection(due, batchSize, now)
    ensures Before(Selection(due, batchSize, now), x, y)
  {
    var window := Window(due, SafeBatchSize(batchSize));
    var ready := Ready(window, now, LOCK_TIMEOUT_SECONDS);
    var order, batch := Sort(ready, DispatchLe), Selection(due, batchSize, now);
    ReadyDistinct(window, now, LOCK_TIMEOUT_SECONDS);
    SortDistinct(ready);
    SortMembers(ready, DispatchLe);
    var k :| 0 <= k < |batch| && batch[k] == y;
    assert order[k] == y && y in order && y in ready;
    ReadyMembers(window, now, LOCK_TIMEOUT_SECONDS, y);
    ReadyKeepsBefore(window, now, LOCK_TIMEOUT_SECONDS, x, y);
    SortKeepsBefore(ready, x, y, DispatchLe);
    var i, j :| 0 <= i < j < |order| && order[i] == x && order[j] == y;
    assert j == k;
    assert batch[i] == x;
  }

  /** What is selected, and in which order. */
  lemma SelectionIsSorted(due: seq<Candidate>, batchSize: int, now: int)
    requires DistinctIds(due)
    ensures
      var b := SafeBatchSize(batchSize);
      var ready := Ready(Window(due, b), now, LOCK_TIMEOUT_SECONDS);
      var batch := Selection(due, batchSize, now);
      DistinctIds(batch) && |batch| == Min(b, |ready|) <= 100 && Sorted(batch, DispatchLe)
  {
    var ready := Ready(Window(due, SafeBatchSize(batchSize)), now, LOCK_TIMEOUT_SECONDS);
    DispatchOrder();
    ReadyDistinct(Window(due, SafeBatchSize(batchSize)), now, LOCK_TIMEOUT_SECONDS);
    SortDistinct(ready);
    SortSorts(ready, DispatchLe);
    SortPermutes(ready, DispatchLe);
  }

  lemma SelectionIsEligible(due: seq<Candidate>, batchSize: int, now: int)
    ensures forall c :: c in Selection(due, batchSize, now) ==>
              c in Window(due, SafeBatchSize(batchSize)) && Eligible(c.row, now, LOCK_TIMEOUT_SECONDS)
  {
    var window := Window(due, SafeBatchSize(batchSize));
    var ready := Ready(window, now, LOCK_TIMEOUT_SECONDS);
    SortMembers(ready, DispatchLe);
    forall c | c in Selection(due, batchSize, now)
      ensures c in window && Eligible(c.row, now, LOCK_TIMEOUT_SECONDS)
    {
      assert c in Sort(ready, DispatchLe);
      ReadyMembers(window, now, LOCK_TIMEOUT_SECONDS, c);
    }
  }

  /** What is left behind is no more urgent than what is taken. */
  lemma SelectionIsUrgent(due: seq<Candidate>, batchSize: int, now: int, x: Candidate, y: Candidate)
    requires x in Selection(due, batchSize, now) && y !in Selection(due, batchSize, now)
    requires y in Window(due, SafeBatchSize(batchSize)) && Eligible(y.row, now, LOCK_TIMEOUT_SECONDS)
    ensures DispatchLe(x, y)
  {
    var window := Window(due, SafeBatchSize(batchSize));
    var ready := Ready(window, now, LOCK_TIMEOUT_SECONDS);
    var order, batch := Sort(ready, DispatchLe), Selection(due, batchSize, now);
    ReadyMembers(window, now, LOCK_TIMEOUT_SECONDS, y);
    SortMembers(ready, DispatchLe);
    DispatchOrder();
    SortSorts(ready, DispatchLe);
    hide Sort, Ready, DispatchLe, Window;
    var i :| 0 <= i < |batch| && batch[i] == x;
    var j :| 0 <= j < |order| && order[j] == y;
    assert order[i] == x;
    assert j >= |batch|;
  }

  /**
   The locked batch: everything in it is eligible, so no fresh lock is taken over;
   it is ordered by urgency then age; it takes as many eligible rows of the window
   as fit; what it leaves behind is no more urgent than anything it takes; and of rows
   equally urgent and old it takes those that come first in the window.
   */
  lemma SelectionIsTheFrontOfTheWindow(due: seq<Candidate>, batchSize: int, now: int)
    requires DistinctIds(due)
    ensures
      var b := SafeBatchSize(batchSize);
      var window := Window(due, b);
      var ready := Ready(window, now, LOCK_TIMEOUT_SECONDS);
      var batch := Selection(due, batchSize, now);
      && DistinctIds(batch)
      && |batch| == Min(b, |ready|) <= 100
      && Sorted(batch, DispatchLe)
      && (forall c :: c in batch ==> c in window && Eligible(c.row, now, LOCK_TIMEOUT_SECONDS))
      && (forall x, y :: x in batch && y in window && Eligible(y.row, now, LOCK_TIMEOUT_SECONDS) && y !in batch
                         ==> DispatchLe(x, y))
      && (forall x, y ::
            Before(window, x, y) && Eligible(x.row, now, LOCK_TIMEOUT_SECONDS) && DispatchLe(x, y) && y in batch
            ==> Before(batch, x, y))
  {
    hide Selection, Window, Ready, Sort;
    var window, batch := Window(due, SafeBatchSize(batchSize)), Selection(due, batchSize, now);
    SelectionIsSorted(due, batchSize, now);
    SelectionIsEligible(due, batchSize, now);
    forall x, y | x in batch && y in window && Eligible(y.row, now, LOCK_TIMEOUT_SECONDS) && y !in batch
      ensures DispatchLe(x, y)
    {
      SelectionIsUrgent(due, batchSize, now, x, y);
    }
    forall x, y |
      Before(window, x, y) && Eligible(x.row, now, LOCK_TIMEOUT_SECONDS) && DispatchLe(x, y) && y in batch
      ensures Before(batch, x, y)
    {
      EarlierOfTiesIsTaken(due, batchSize, now, x, y);
    }
  }

  // ---- Who is taken, and who is overtaken ----

  /** `x` is dispatched before `y`: it is more urgent or older, or just as urgent and old and first in the window. */
  ghost predicate Precedes(window: seq<Candidate>, x: Candidate, y: Candidate) {
    DispatchLe(x, y) && (!DispatchLe(y, x) || Before(window, x, y))
  }

  /** The eligible rows of the window that are dispatched before `y`. */
  ghost function Ahead(window: seq<Candidate>, now: int, y: Candidate): set<Candidate> {
    set x | x in window && Eligible(x.row, now, LOCK_TIMEOUT_SECONDS) && Precedes(window, x, y)
  }

  lemma OneIsBefore(s: seq<Candidate>, x: Candidate, y: Candidate)
    requires x in s && y in s && x != y
    ensures Before(s, x, y) || Before(s, y, x)
  {
    var i :| 0 <= i < |s| && s[i] == x;
    var j :| 0 <= j < |s| && s[j] == y;
    assert i < j || j < i;
  }

  lemma BeforeIsUnambiguous(s: seq<Candidate>, k: nat, x: Candidate)
    requires DistinctIds(s) && k < |s|
    ensures Before(s, x, s[k]) <==> x in s[..k]
  {
    if x in s[..k] {
      var i :| 0 <= i < k && s[..k][i] == x;
      assert s[i] == x;
    }
    if Before(s, x, s[k]) {
      var i, j :| 0 <= i < j < |s| && s[i] == x && s[j] == s[k];
      assert j == k && s[..k][i] == x;
    }
  }

  /** The sorted eligible rows in front of `y` are those that precede it. */
  lemma FrontOfOrder(window: seq<Candidate>, now: int, k: nat, x: Candidate)
    requires DistinctIds(window)
    requires var order := Sort(Ready(window, now, LOCK_TIMEOUT_SECONDS), DispatchLe); k < |order|
    ensures var order := Sort(Ready(window, now, LOCK_TIMEOUT_SECONDS), DispatchLe);
            x in order[..k] <==> x in Ahead(window, now, order[k])
  {
    var ready := Ready(window, now, LOCK_TIMEOUT_SECONDS);
    var order := Sort(ready, DispatchLe);
    var y := order[k];
    ReadyDistinct(window, now, LOCK_TIMEOUT_SECONDS);
    SortDistinct(ready);
    SortMembers(ready, DispatchLe);
    ReadyMembers(window, now, LOCK_TIMEOUT_SECONDS, x);
    ReadyMembers(window, now, LOCK_TIMEOUT_SECONDS, y);
    BeforeIsUnambiguous(order, k, x);
    assert y in order;
    hide Sort, Ready;
    if x in order && x != y {
      OneIsBefore(order, x, y);
      OrderAgrees(window, now, x, y);
      OrderAgrees(window, now, y, x);
      OneIsBefore(window, x, y);
      NotBothBefore(order, x, y);
      NotBothBefore(window, x, y);
    } else {
      NotBothBefore(window, y, y);
    }
  }

  lemma NotBothBefore(s: seq<Candidate>, x: Candidate, y: Candidate)
    requires DistinctIds(s)
    ensures !(Before(s, x, y) && Before(s, y, x))
  {
  }

  /** The order follows urgency and age, and the window between equals. */
  lemma OrderAgrees(window: seq<Candidate>, now: int, x: Candidate, y: Candidate)
    requires x in window && Eligible(x.row, now, LOCK_TIMEOUT_SECONDS)
    requires y in window && Eligible(y.row, now, LOCK_TIMEOUT_SECONDS)
    ensures var order := Sort(Ready(window, now, LOCK_TIMEOUT_SECONDS), DispatchLe);
            && (Before(order, x, y) ==> DispatchLe(x, y))
            && (Before(window, x, y) && DispatchLe(x, y) ==> Before(order, x, y))
  {
    var ready := Ready(window, now, LOCK_TIMEOUT_SECONDS);
    DispatchOrder();
    SortSorts(ready, DispatchLe);
    if Before(window, x, y) && DispatchLe(x, y) {
      ReadyKeepsBefore(window, now, LOCK_TIMEOUT_SECONDS, x, y);
      SortKeepsBefore(ready, x, y, DispatchLe);
    }
  }

  lemma {:induction false} DistinctCount(s: seq<Candidate>, elements: set<Candidate>)
    requires DistinctIds(s) && forall x :: x in s <==> x in elements
    ensures |elements| == |s|
  {
    if s != [] {
      var n := |s| - 1;
      assert s == s[..n] + [s[n]];
      assert s[n] in elements && s[n] !in s[..n];
      DistinctCount(s[..n], elements - {s[n]});
    } else {
      assert elements == {};
    }
  }

  /**
   An eligible row of the window is taken exactly when fewer than a batch of eligible
   rows precede it.  So at every single poll a batch of more urgent rows overtakes it,
   however long it has been waiting.
   */
  lemma TakenIffFewAhead(due: seq<Candidate>, batchSize: int, now: int, y: Candidate)
    requires DistinctIds(due)
    requires y in Window(due, SafeBatchSize(batchSize)) && Eligible(y.row, now, LOCK_TIMEOUT_SECONDS)
    ensures y in Selection(due, batchSize, now) <==>
            |Ahead(Window(due, SafeBatchSize(batchSize)), now, y)| < SafeBatchSize(batchSize)
  {
    var window := Window(due, SafeBatchSize(batchSize));
    var ready := Ready(window, now, LOCK_TIMEOUT_SECONDS);
    var order, batch := Sort(ready, DispatchLe), Selection(due, batchSize, now);
    ReadyDistinct(window, now, LOCK_TIMEOUT_SECONDS);
    SortDistinct(ready);
    SortMembers(ready, DispatchLe);
    ReadyMembers(window, now, LOCK_TIMEOUT_SECONDS, y);
    assert batch == order[..Min(SafeBatchSize(batchSize), |order|)];
    hide Sort, Ready, Selection, Window, Ahead;
    var k :| 0 <= k < |order| && order[k] == y;
    forall x
      ensures x in order[..k] <==> x in Ahead(window, now, y)
    {
      FrontOfOrder(window, now, k, x);
    }
    DistinctCount(order[..k], Ahead(window, now, y));
    assert y in batch <==> k < |batch|;
  }

  function FreshCount(due: seq<Candidate>, now: int): nat {
    if due == [] then 0
    else
      FreshCount(due[..|due| - 1], now)
      + (if FreshlyLocked(due[|due| - 1].row, now, LOCK_TIMEOUT_SECONDS) then 1 else 0)
  }

  lemma {:induction false} FreshCountOfPrefix(due: seq<Candidate>, k: nat, now: int)
    requires k <= |due|
    ensures FreshCount(due[..k], now) <= FreshCount(due, now)
    decreases |due|
  {
    if k < |due| {
      FreshCountOfPrefix(due[..|due| - 1], k, now);
      assert due[..|due| - 1][..k] == due[..k];
    } else {
      assert due[..k] == due;
    }
  }

  lemma {:induction false} AllFresh(w: seq<Candidate>, now: int)
    requires forall c :: c in w ==> FreshlyLocked(c.row, now, LOCK_TIMEOUT_SECONDS)
    ensures FreshCount(w, now) == |w|
  {
    if w != [] {
      AllFresh(w[..|w| - 1], now);
    }
  }

  ghost predicate IsDue(row: Row, now: int) {
    row.availableAt <= now && (row.status == Pending || row.status == FailedRetryable || row.status == Locked)
  }

  /** A batch is empty exactly when every row of the window is freshly locked. */
  lemma SelectionEmptyIffWindowFresh(due: seq<Candidate>, batchSize: int, now: int)
    requires DistinctIds(due)
    requires forall c :: c in due ==> IsDue(c.row, now)
    ensures Selection(due, batchSize, now) == [] <==>
            forall c :: c in Window(due, SafeBatchSize(batchSize)) ==> FreshlyLocked(c.row, now, LOCK_TIMEOUT_SECONDS)
  {
    SelectionIsTheFrontOfTheWindow(due, batchSize, now);
    var window := Window(due, SafeBatchSize(batchSize));
    var ready := Ready(window, now, LOCK_TIMEOUT_SECONDS);
    forall c: Candidate
      ensures c in ready <==> c in window && Eligible(c.row, now, LOCK_TIMEOUT_SECONDS)
    {
      ReadyMembers(window, now, LOCK_TIMEOUT_SECONDS, c);
    }
    forall c | c in window
      ensures IsDue(c.row, now)
    {
      assert c in due;
    }
    if ready != [] {
      assert ready[0] in ready;
    }
  }

  /** Progress: fresh locks can hide eligible work only when they fill the window. */
  lemma SelectionMakesProgress(due: seq<Candidate>, batchSize: int, now: int)
    requires DistinctIds(due)
    requires forall c :: c in due ==> IsDue(c.row, now)
    requires exists c :: c in due && Eligible(c.row, now, LOCK_TIMEOUT_SECONDS)
    requires FreshCount(due, now) < 3 * SafeBatchSize(batchSize)
    ensures Selection(due, batchSize, now) != []
  {
    SelectionEmptyIffWindowFresh(due, batchSize, now);
    var b := SafeBatchSize(batchSize);
    var window := Window(due, b);
    assert |due| <= 3 * b ==> window == due;
    if Selection(due, batchSize, now) == [] {
      AllFresh(window, now);
      FreshCountOfPrefix(due, |window|, now);
    }
  }

  const HELD := Row("a.b", "k", Normal, 0, Locked, 0, Some(1000), "relay", None)
  const WAITING := Row("a.b", "k", Normal, 0, Pending, 1, Some(1000), "relay", None)

  /** `n` rows with fresh locks. */
  function HeldRows(n: nat): (rows: seq<Candidate>)
    ensures |rows| == n && forall i :: 0 <= i < n ==> rows[i] == Candidate(i, HELD)
  {
    seq(n, i requires 0 <= i < n => Candidate(i, HELD))
  }

  /** The same with an eligible row behind them. */
  lemma HeldThenWaiting(n: nat) returns (due: seq<Candidate>)
    ensures due == HeldRows(n) + [Candidate(n, WAITING)]
    ensures DistinctIds(due) && due[..n] == HeldRows(n)
    ensures forall c :: c in due ==> IsDue(c.row, 1000)
    ensures exists c :: c in due && Eligible(c.row, 1000, LOCK_TIMEOUT_SECONDS)
    ensures FreshCount(due, 1000) == n
  {
    due := HeldRows(n) + [Candidate(n, WAITING)];
    assert due[|due| - 1] in due && Eligible(due[|due| - 1].row, 1000, LOCK_TIMEOUT_SECONDS);
    assert due[..n] == HeldRows(n);
    AllFresh(HeldRows(n), 1000);
  }

  /** The bound is tight for every batch size: `3 * b` fresh locks at the front starve a batch of `b`. */
  lemma FullWindowStarves(b: int) returns (due: seq<Candidate>, now: int)
    requires 1 <= b <= MAX_RELAY_BATCH_SIZE
    ensures DistinctIds(due)
    ensures forall c :: c in due ==> IsDue(c.row, now)
    ensures exists c :: c in due && Eligible(c.row, now, LOCK_TIMEOUT_SECONDS)
    ensures FreshCount(due, now) == 3 * SafeBatchSize(b)
    ensures Selection(due, b, now) == []
  {
    hide Selection, FreshCount, IsDue, Eligible;
    now := 1000;
    due := HeldThenWaiting(3 * b);
    assert Window(due, SafeBatchSize(b)) == HeldRows(3 * b);
    SelectionEmptyIffWindowFresh(due, b, now);
  }

  /** The oldest due row, first in the listing, is left behind for a newer critical one. */
  lemma OldBackgroundWorkWaits() returns (due: seq<Candidate>, now: int)
    ensures DistinctIds(due) && |due| == 2
    ensures forall c :: c in due ==> IsDue(c.row, now) && Eligible(c.row, now, LOCK_TIMEOUT_SECONDS)
    ensures due[0].row.availableAt < due[1].row.availableAt && due[0].row.occurredAt < due[1].row.occurredAt
    ensures due[0] !in Selection(due, 1, now)
  {
    now := 1000;
    var oldest := WAITING.(priority := Background, availableAt := 0);
    var urgent := WAITING.(priority := Critical, availableAt := 900, occurredAt := 900);
    due := [Candidate(0, oldest), Candidate(1, urgent)];
    assert Window(due, 1) == due && due[1] in due && due[0] in due;
    assert due[1] in Ahead(due, now, due[0]);
    assert {due[1]} <= Ahead(due, now, due[0]);
    SubsetIsSmaller({due[1]}, Ahead(due, now, due[0]));
    TakenIffFewAhead(due, 1, now, due[0]);
  }

  lemma {:induction false} SubsetIsSmaller(a: set<Candidate>, b: set<Candidate>)
    requires a <= b
    ensures |a| <= |b|
  {
    assert b == a + (b - a);
  }

  // ---- The same in terms of the rows alone ----

  predicate Outranks(p: Priority, q: Priority) {
    match p
    case Critical => q != Critical
    case High => q == Normal || q == Low || q == Background
    case Normal => q == Low || q == Background
    case Low => q == Background
    case Background => false
  }

  /** More urgent, or as urgent and older. */
  predicate GoesFirst(x: Row, y: Row) {
    Outranks(x.priority, y.priority) || (x.priority == y.priority && x.occurredAt < y.occurredAt)
  }

  /** Due, and waiting or left locked for more than five minutes. */
  predicate IsFree(row: Row, now: int) {
    && row.availableAt <= now
    && (row.status == Pending || row.status == FailedRetryable
        || (row.status == Locked && row.lockedAt.Some? && row.lockedAt.value + 300 < now))
  }

  /** A batch size below one counts as one, and one above a hundred as a hundred. */
  predicate IsBatchSize(batchSize: int, b: nat) {
    1 <= b <= 100 && (b == batchSize || (b == 1 && batchSize < 1) || (b == 100 && batchSize > 100))
  }

  /** Of two free rows among the first `3 * b` due ones the one that goes first is taken first. */
  lemma UrgentGoesFirst(due: seq<Candidate>, batchSize: int, b: nat, now: int, x: Candidate, y: Candidate)
    requires DistinctIds(due) && IsBatchSize(batchSize, b)
    requires var front := if 3 * b < |due| then due[..3 * b] else due; x in front && y in front
    requires IsFree(x.row, now) && IsFree(y.row, now) && GoesFirst(x.row, y.row)
    requires y in Selection(due, batchSize, now)
    ensures Before(Selection(due, batchSize, now), x, y)
  {
    var batch, window := Selection(due, batchSize, now), Window(due, SafeBatchSize(batchSize));
    assert window == if 3 * b < |due| then due[..3 * b] else due;
    assert DispatchLe(x, y) && !DispatchLe(y, x);
    SelectionIsTheFrontOfTheWindow(due, batchSize, now);
    hide Selection, Window, Ready, DispatchLe;
    assert x in batch;
    OneIsBefore(batch, x, y);
  }

  /** What is taken is free and among the first `3 * b`; it is a full batch, or every such row. */
  lemma BatchIsFullOrAll(due: seq<Candidate>, batchSize: int, b: nat, now: int)
    requires DistinctIds(due) && IsBatchSize(batchSize, b)
    ensures var batch, front := Selection(due, batchSize, now), if 3 * b < |due| then due[..3 * b] else due;
            && DistinctIds(batch) && |batch| <= b
            && (forall c :: c in batch ==> c in front && IsFree(c.row, now))
            && (|batch| < b ==> forall c :: c in front && IsFree(c.row, now) ==> c in batch)
  {
    var window := Window(due, SafeBatchSize(batchSize));
    assert window == if 3 * b < |due| then due[..3 * b] else due;
    assert b == SafeBatchSize(batchSize);
    SelectionIsTheFrontOfTheWindow(due, batchSize, now);
    if |Selection(due, batchSize, now)| < b {
      ShortBatchIsAll(due, batchSize, now);
    }
    hide Selection, Window, Ready, Sorted;
  }

  lemma ShortBatchIsAll(due: seq<Candidate>, batchSize: int, now: int)
    requires |Selection(due, batchSize, now)| < SafeBatchSize(batchSize)
    ensures forall c :: c in Window(due, SafeBatchSize(batchSize)) && Eligible(c.row, now, LOCK_TIMEOUT_SECONDS)
                        ==> c in Selection(due, batchSize, now)
  {
    var window := Window(due, SafeBatchSize(batchSize));
    var ready := Ready(window, now, LOCK_TIMEOUT_SECONDS);
    SortMembers(ready, DispatchLe);
    assert Selection(due, batchSize, now) == Sort(ready, DispatchLe);
    forall c | c in window && Eligible(c.row, now, LOCK_TIMEOUT_SECONDS)
      ensures c in ready
    {
      ReadyMembers(window, now, LOCK_TIMEOUT_SECONDS, c);
    }
  }
}
