/**
 What one visit of a relay does to an event, told by what the handlers do and by the
 rows the visit finds and leaves, without the single writes in between.
 */
module VisitLaws {
  import opened Options
  import opened EventModel
  import opened Retry
  import opened Outbox
  import opened RelayService

  /** The registry lists the consumer for events of this type. */
  predicate IsListed(cfg: Config, ev: Event, c: string) {
    ev.row.eventType in cfg.allowed && c in cfg.allowed[ev.row.eventType]
  }

  type Rows = map<string, ConsumerStatus>

  /** The consumer has a row that did not fail. */
  predicate IsSettled(rows: Rows, c: string) {
    c in rows && (rows[c] == Started || rows[c] == Processed)
  }

  /** The visit goes on after this consumer. */
  predicate Passes(cfg: Config, ev: Event, c: string, script: Script) {
    IsListed(cfg, ev, c) && (IsSettled(ev.consumers, c) || script(c) == Comes(ReturnsNormally))
  }

  /** Consumer `i` is the first that the visit does not pass; there is none when `i` is their number. */
  ghost predicate StopsAt(cfg: Config, ev: Event, script: Script, i: nat) {
    var hs := HandlersOf(cfg, ev);
    && i <= |hs|
    && (forall j :: 0 <= j < i ==> Passes(cfg, ev, hs[j], script))
    && (i < |hs| ==> !Passes(cfg, ev, hs[i], script))
  }

  /** The calls of those among these consumers that are not settled, in their order, each returning. */
  function CallsOf(rows: Rows, consumers: seq<string>): seq<Call> {
    if consumers == [] then []
    else
      var c := consumers[|consumers| - 1];
      CallsOf(rows, consumers[..|consumers| - 1]) + (if IsSettled(rows, c) then [] else [Call(c, true)])
  }

  /** Consumers that were passed are processed, or as they were; `last` holds what became of another one. */
  ghost predicate RowsLeft(before: Rows, after: Rows, passed: seq<string>, last: Rows) {
    && after.Keys == before.Keys + (set c | c in passed) + last.Keys
    && forall c :: c in after ==>
         after[c] == if c in last then last[c]
                     else if c in before && (c !in passed || IsSettled(before, c)) then before[c]
                     else Processed
  }

  /** The event when the visit has passed the first `i` consumers. */
  ghost predicate Reached(cfg: Config, begun: Event, ev: Event, n: nat, i: nat, script: Script, now: int)
    requires Fits(cfg, begun, n, Examine(0))
  {
    var hs := HandlersOf(cfg, begun);
    && i <= |hs| && HandlersOf(cfg, ev) == hs
    && Fits(cfg, ev, n, Examine(i))
    && Drive(cfg, begun, n, Examine(0), script, now) == Drive(cfg, ev, n, Examine(i), script, now)
    && RowsLeft(begun.consumers, ev.consumers, hs[..i], map[])
    && ev == begun.(consumers := ev.consumers, history := begun.history.(calls := ev.history.calls))
    && ev.history.calls == begun.history.calls + CallsOf(begun.consumers, hs[..i])
  }

  function Handled(ev: Event, c: string): Event {
    if IsSettled(ev.consumers, c) then ev else LogCall(SetConsumer(ev, c, Processed), c, true)
  }

  /** A consumer that is passed leaves its row processed, or as it was. */
  lemma PassingOne(cfg: Config, ev: Event, n: nat, i: nat, script: Script, now: int)
    requires Fits(cfg, ev, n, Examine(i)) && i < |HandlersOf(cfg, ev)|
    requires Passes(cfg, ev, HandlersOf(cfg, ev)[i], script)
    ensures var ev' := Handled(ev, HandlersOf(cfg, ev)[i]);
            && HandlersOf(cfg, ev') == HandlersOf(cfg, ev) && Fits(cfg, ev', n, Examine(i + 1))
            && Drive(cfg, ev, n, Examine(i), script, now) == Drive(cfg, ev', n, Examine(i + 1), script, now)
  {
    hide Drive;
    var c := HandlersOf(cfg, ev)[i];
    DriveOneWrite(cfg, ev, n, Examine(i), script, now);
    if !IsSettled(ev.consumers, c) {
      var started := if c in ev.consumers then ev else SetConsumer(ev, c, Started);
      DriveOneWrite(cfg, started, n, Calling(i), script, now);
      var returned := LogCall(started, c, true);
      DriveOneWrite(cfg, returned, n, Returned(i), script, now);
      assert started.consumers[c := Processed] == ev.consumers[c := Processed];
      assert SetConsumer(returned, c, Processed) == Handled(ev, c);
    }
  }

  lemma OneMoreConsumer(hs: seq<string>, i: nat)
    requires Distinct(hs) && i < |hs|
    ensures hs[i] !in hs[..i] && forall c :: c in hs[..i + 1] <==> c in hs[..i] || c == hs[i]
  {
    assert hs[..i + 1] == hs[..i] + [hs[i]];
  }

  lemma OneMoreCall(rows: Rows, hs: seq<string>, i: nat)
    requires i < |hs|
    ensures CallsOf(rows, hs[..i + 1])
            == CallsOf(rows, hs[..i]) + (if IsSettled(rows, hs[i]) then [] else [Call(hs[i], true)])
  {
    assert hs[..i + 1][..i] == hs[..i];
  }

  lemma OneMorePassed(before: Rows, ev: Event, hs: seq<string>, i: nat)
    requires Distinct(hs) && i < |hs| && RowsLeft(before, ev.consumers, hs[..i], map[])
    ensures IsSettled(ev.consumers, hs[i]) == IsSettled(before, hs[i])
    ensures RowsLeft(before, Handled(ev, hs[i]).consumers, hs[..i + 1], map[])
  {
    OneMoreConsumer(hs, i);
  }

  lemma ReachedFirst(cfg: Config, begun: Event, n: nat, script: Script, now: int)
    requires Fits(cfg, begun, n, Examine(0))
    ensures Reached(cfg, begun, begun, n, 0, script, now)
  {
    hide Drive;
    assert HandlersOf(cfg, begun)[..0] == [];
  }

  /** What one passed consumer changes. */
  lemma HandledChanges(ev: Event, c: string)
    ensures var ev' := Handled(ev, c);
            && ev' == ev.(consumers := ev'.consumers, history := ev.history.(calls := ev'.history.calls))
            && ev'.history.calls == ev.history.calls + (if IsSettled(ev.consumers, c) then [] else [Call(c, true)])
  {
  }

  lemma ReachedNext(cfg: Config, begun: Event, ev: Event, n: nat, i: nat, script: Script, now: int)
    requires Fits(cfg, begun, n, Examine(0)) && Distinct(HandlersOf(cfg, begun)) && i < |HandlersOf(cfg, begun)|
    requires Reached(cfg, begun, ev, n, i, script, now) && Passes(cfg, begun, HandlersOf(cfg, begun)[i], script)
    ensures Reached(cfg, begun, Handled(ev, HandlersOf(cfg, begun)[i]), n, i + 1, script, now)
  {
    hide Drive, RowsLeft, CallsOf, Distinct, IsSettled, Handled;
    var hs := HandlersOf(cfg, begun);
    OneMorePassed(begun.consumers, ev, hs, i);
    OneMoreCall(begun.consumers, hs, i);
    PassingOne(cfg, ev, n, i, script, now);
    HandledChanges(ev, hs[i]);
  }

  lemma {:induction false} PassingMany(cfg: Config, begun: Event, n: nat, i: nat, script: Script, now: int)
    returns (ev: Event)
    requires Fits(cfg, begun, n, Examine(0)) && Distinct(HandlersOf(cfg, begun)) && i <= |HandlersOf(cfg, begun)|
    requires forall j :: 0 <= j < i ==> Passes(cfg, begun, HandlersOf(cfg, begun)[j], script)
    ensures Reached(cfg, begun, ev, n, i, script, now)
    decreases i
  {
    hide Reached, Passes, Distinct;
    if i == 0 {
      ev := begun;
      ReachedFirst(cfg, begun, n, script, now);
    } else {
      var before := PassingMany(cfg, begun, n, i - 1, script, now);
      ReachedNext(cfg, begun, before, n, i - 1, script, now);
      ev := Handled(before, HandlersOf(cfg, begun)[i - 1]);
    }
  }

  // ---- How a visit ends ----

  lemma DispatchedEnd(cfg: Config, ev: Event, n: nat, script: Script, now: int)
    requires Fits(cfg, ev, n, Examine(|HandlersOf(cfg, ev)|))
    ensures Drive(cfg, ev, n, Examine(|HandlersOf(cfg, ev)|), script, now)
            == Ended(ev.(row := ev.row.(status := Dispatched, dispatchedAt := Some(now)),
                         attempts := ev.attempts[n - 1 := ev.attempts[n - 1].(status := AttemptSucceeded,
                                                                              finishedAt := Some(now))]), false)
  {
    hide Drive;
    DriveOneWrite(cfg, ev, n, Examine(|HandlersOf(cfg, ev)|), script, now);
    var marked := ev.(row := ev.row.(status := Dispatched, dispatchedAt := Some(now)));
    DriveOneWrite(cfg, marked, n, DispatchMarked, script, now);
  }

  /** What a caught permanent failure writes after the consumer row. */
  function Buried(ev: Event, n: nat, now: int): Event
    requires 1 <= n <= |ev.attempts|
  {
    ev.(row := ev.row.(status := DeadLettered),
        deadLetters := ev.deadLetters + [DeadLetter(PermanentFailure, n)],
        attempts := ev.attempts[n - 1 := ev.attempts[n - 1].(status := AttemptDeadLettered, finishedAt := Some(now))])
  }

  lemma PermanentEnd(cfg: Config, ev: Event, n: nat, c: string, script: Script, now: int)
    requires Fits(cfg, ev, n, Failing(c, Permanent))
    ensures Drive(cfg, ev, n, Failing(c, Permanent), script, now)
            == Ended(Buried(ev.(consumers := ev.consumers[c := Failed]), n, now), false)
  {
    hide Drive;
    FailureWrites(cfg, ev, n, c, Permanent, script, now);
    PermanentWrites(cfg, SetConsumer(ev, c, Failed), n, script, now);
  }

  /** What a caught retryable failure writes after the consumer row. */
  function PutOff(ev: Event, n: nat, now: int): Event
    requires 1 <= n <= |ev.attempts|
  {
    var closed := ev.(attempts :=
      ev.attempts[n - 1 := ev.attempts[n - 1].(status := AttemptFailedRetryable, finishedAt := Some(now))]);
    if n < 3 then
      closed.(row := ev.row.(status := FailedRetryable, availableAt := now + (if n == 1 then 60 else 120)),
              history := ev.history.(retries := ev.history.retries + 1))
    else
      closed.(row := ev.row.(status := DeadLettered),
              deadLetters := ev.deadLetters + [DeadLetter(MaxRetriesExceeded, n)])
  }

  lemma RetryableEnd(cfg: Config, ev: Event, n: nat, c: string, script: Script, now: int)
    requires Fits(cfg, ev, n, Failing(c, Retryable))
    ensures Drive(cfg, ev, n, Failing(c, Retryable), script, now)
            == Ended(PutOff(ev.(consumers := ev.consumers[c := Failed]), n, now), false)
  {
    hide Drive;
    FailureWrites(cfg, ev, n, c, Retryable, script, now);
    var failed := SetConsumer(ev, c, Failed);
    DriveOneWrite(cfg, failed, n, FailureNoted(Retryable), script, now);
    var closed := CloseAttempt(failed, n, AttemptFailedRetryable, now);
    DriveOneWrite(cfg, closed, n, RetryNoted, script, now);
    if n < 3 {
      RetryDelaySchedule(n);
      assert Pow2(0) == 1 && Pow2(1) == 2;
    } else {
      DriveOneWrite(cfg, SetStatus(closed, DeadLettered), n, DeadMarked(true), script, now);
    }
  }

  /** Where the visit goes on from the consumer that it does not pass. */
  lemma StoppedAt(cfg: Config, ev: Event, n: nat, i: nat, script: Script, now: int)
    requires Fits(cfg, ev, n, Examine(i)) && i < |HandlersOf(cfg, ev)|
    requires !Passes(cfg, ev, HandlersOf(cfg, ev)[i], script)
    ensures var c := HandlersOf(cfg, ev)[i];
            var d := Drive(cfg, ev, n, Examine(i), script, now);
            var started := if c in ev.consumers then ev else SetConsumer(ev, c, Started);
            && HandlersOf(cfg, started) == HandlersOf(cfg, ev)
            && Fits(cfg, started, n, Calling(i))
            && (!IsListed(cfg, ev, c) ==> d == Drive(cfg, ev, n, Failing(c, Permanent), script, now))
            && (IsListed(cfg, ev, c) ==> d == Drive(cfg, started, n, Calling(i), script, now))
  {
    hide Drive;
    DriveOneWrite(cfg, ev, n, Examine(i), script, now);
  }

  // ---- The outcome of a visit ----

  /** Some consumer is the first that is not passed, or all are. */
  lemma {:induction false} StopsSomewhere(cfg: Config, ev: Event, script: Script, k: nat) returns (i: nat)
    requires k <= |HandlersOf(cfg, ev)|
    requires forall j :: 0 <= j < k ==> Passes(cfg, ev, HandlersOf(cfg, ev)[j], script)
    ensures StopsAt(cfg, ev, script, i)
    decreases |HandlersOf(cfg, ev)| - k
  {
    if k < |HandlersOf(cfg, ev)| && Passes(cfg, ev, HandlersOf(cfg, ev)[k], script) {
      i := StopsSomewhere(cfg, ev, script, k + 1);
    } else {
      i := k;
    }
  }

  /**
   After a visit of `before` the event has this row, one more attempt, these further dead
   letters, the consumer rows of those passed and of the last one, and these further calls.
   */
  ghost predicate Leaves(before: Event, after: Event, passed: seq<string>, row: Row, attempt: Attempt,
                         letters: seq<DeadLetter>, last: Rows, lastCall: seq<Call>)
  {
    && after.row == row
    && after.attempts == before.attempts + [attempt]
    && after.deadLetters == before.deadLetters + letters
    && RowsLeft(before.consumers, after.consumers, passed, last)
    && after.history.calls == before.history.calls + CallsOf(before.consumers, passed) + lastCall
  }

  lemma VisitDispatches(cfg: Config, ev: Event, name: string, script: Script, now: int)
    requires ValidConfig(cfg) && StopsAt(cfg, ev, script, |HandlersOf(cfg, ev)|)
    ensures var ended := VisitOf(cfg, ev, name, script, now);
            && !ended.escaped
            && Leaves(ev, ended.event, HandlersOf(cfg, ev), ev.row.(status := Dispatched, dispatchedAt := Some(now)),
                      Attempt(|ev.attempts| + 1, name, AttemptSucceeded, Some(now)), [], map[], [])
  {
    var begun, n, hs := OpenAttempt(ev, name), |ev.attempts| + 1, HandlersOf(cfg, ev);
    hide Drive;
    var reached := PassingMany(cfg, begun, n, |hs|, script, now);
    DispatchedEnd(cfg, reached, n, script, now);
    assert hs[..|hs|] == hs;
  }

  /** What became of the consumer at which the visit stopped. */
  lemma RowsWithLast(before: Rows, mid: Rows, passed: seq<string>, c: string, status: ConsumerStatus)
    requires RowsLeft(before, mid, passed, map[])
    ensures RowsLeft(before, mid[c := status], passed, map[c := status])
  {
  }

  /** The event as the visit finds it when it comes to the consumer at which it stops. */
  lemma ReachingTheStop(cfg: Config, ev: Event, name: string, script: Script, now: int, i: nat)
    returns (reached: Event)
    requires ValidConfig(cfg) && StopsAt(cfg, ev, script, i) && i < |HandlersOf(cfg, ev)|
    ensures var begun, n, c := OpenAttempt(ev, name), |ev.attempts| + 1, HandlersOf(cfg, ev)[i];
            && Reached(cfg, begun, reached, n, i, script, now)
            && !Passes(cfg, reached, c, script)
            && (c in reached.consumers <==> c in ev.consumers)
            && (c in ev.consumers ==> reached.consumers[c] == ev.consumers[c])
  {
    hide Drive, Reached;
    var begun, n, hs := OpenAttempt(ev, name), |ev.attempts| + 1, HandlersOf(cfg, ev);
    reached := PassingMany(cfg, begun, n, i, script, now);
    OneMoreConsumer(hs, i);
    StopKeepsItsRow(cfg, begun, reached, n, i, script, now);
  }

  lemma StopKeepsItsRow(cfg: Config, begun: Event, reached: Event, n: nat, i: nat, script: Script, now: int)
    requires Fits(cfg, begun, n, Examine(0)) && Reached(cfg, begun, reached, n, i, script, now)
    requires i < |HandlersOf(cfg, begun)| && HandlersOf(cfg, begun)[i] !in HandlersOf(cfg, begun)[..i]
    ensures var c := HandlersOf(cfg, begun)[i];
            && reached.row == begun.row
            && (c in reached.consumers <==> c in begun.consumers)
            && (c in begun.consumers ==> reached.consumers[c] == begun.consumers[c])
  {
    hide Drive;
  }

  lemma VisitBuries(cfg: Config, ev: Event, name: string, script: Script, now: int, i: nat)
    requires ValidConfig(cfg) && StopsAt(cfg, ev, script, i) && i < |HandlersOf(cfg, ev)|
    requires var c := HandlersOf(cfg, ev)[i]; !IsListed(cfg, ev, c) || script(c) == Comes(RaisesPermanent)
    ensures var ended, n, c := VisitOf(cfg, ev, name, script, now), |ev.attempts| + 1, HandlersOf(cfg, ev)[i];
            && !ended.escaped
            && Leaves(ev, ended.event, HandlersOf(cfg, ev)[..i], ev.row.(status := DeadLettered),
                      Attempt(n, name, AttemptDeadLettered, Some(now)), [DeadLetter(PermanentFailure, n)],
                      map[c := Failed], if IsListed(cfg, ev, c) then [Call(c, false)] else [])
  {
    hide Drive, RowsLeft, CallsOf;
    var n, c := |ev.attempts| + 1, HandlersOf(cfg, ev)[i];
    var reached := ReachingTheStop(cfg, ev, name, script, now, i);
    StoppedAt(cfg, reached, n, i, script, now);
    var last := reached;
    if IsListed(cfg, ev, c) {
      var started := if c in ev.consumers then reached else SetConsumer(reached, c, Started);
      DriveOneWrite(cfg, started, n, Calling(i), script, now);
      last := LogCall(started, c, false);
    }
    PermanentEnd(cfg, last, n, c, script, now);
    RowsWithLast(ev.consumers, reached.consumers, HandlersOf(cfg, ev)[..i], c, Failed);
    assert last.consumers[c := Failed] == reached.consumers[c := Failed];
  }

  lemma VisitPutsOff(cfg: Config, ev: Event, name: string, script: Script, now: int, i: nat)
    requires ValidConfig(cfg) && StopsAt(cfg, ev, script, i) && i < |HandlersOf(cfg, ev)|
    requires var c := HandlersOf(cfg, ev)[i]; IsListed(cfg, ev, c) && script(c) == Comes(RaisesRetryable)
    ensures var ended, n, c := VisitOf(cfg, ev, name, script, now), |ev.attempts| + 1, HandlersOf(cfg, ev)[i];
            && !ended.escaped
            && Leaves(ev, ended.event, HandlersOf(cfg, ev)[..i],
                      if n == 1 then ev.row.(status := FailedRetryable, availableAt := now + 60)
                      else if n == 2 then ev.row.(status := FailedRetryable, availableAt := now + 120)
                      else ev.row.(status := DeadLettered),
                      Attempt(n, name, AttemptFailedRetryable, Some(now)),
                      if n < 3 then [] else [DeadLetter(MaxRetriesExceeded, n)],
                      map[c := Failed], [Call(c, false)])
  {
    hide Drive, RowsLeft, CallsOf;
    var n, c := |ev.attempts| + 1, HandlersOf(cfg, ev)[i];
    var reached := ReachingTheStop(cfg, ev, name, script, now, i);
    StoppedAt(cfg, reached, n, i, script, now);
    var started := if c in ev.consumers then reached else SetConsumer(reached, c, Started);
    DriveOneWrite(cfg, started, n, Calling(i), script, now);
    var last := LogCall(started, c, false);
    RetryableEnd(cfg, last, n, c, script, now);
    RowsWithLast(ev.consumers, reached.consumers, HandlersOf(cfg, ev)[..i], c, Failed);
    assert last.consumers[c := Failed] == reached.consumers[c := Failed];
  }

  lemma VisitEscapes(cfg: Config, ev: Event, name: string, script: Script, now: int, i: nat)
    requires ValidConfig(cfg) && StopsAt(cfg, ev, script, i) && i < |HandlersOf(cfg, ev)|
    requires var c := HandlersOf(cfg, ev)[i]; IsListed(cfg, ev, c) && script(c) == Escapes
    ensures var ended, n, c := VisitOf(cfg, ev, name, script, now), |ev.attempts| + 1, HandlersOf(cfg, ev)[i];
            && ended.escaped
            && Leaves(ev, ended.event, HandlersOf(cfg, ev)[..i], ev.row,
                      Attempt(n, name, AttemptStarted, None), [],
                      map[c := if c in ev.consumers then Failed else Started], [])
  {
    hide Drive, RowsLeft, CallsOf;
    var n, c := |ev.attempts| + 1, HandlersOf(cfg, ev)[i];
    var reached := ReachingTheStop(cfg, ev, name, script, now, i);
    StoppedAt(cfg, reached, n, i, script, now);
    var started := if c in ev.consumers then reached else SetConsumer(reached, c, Started);
    DriveEscapes(cfg, started, n, Calling(i), script, now);
    var status := if c in ev.consumers then Failed else Started;
    RowsWithLast(ev.consumers, reached.consumers, HandlersOf(cfg, ev)[..i], c, status);
    assert started.consumers == reached.consumers[c := status];
  }

  /**
   The status a visit leaves a locked event in, and when: the first consumer that is not
   passed decides.  A refused consumer or a permanent exception buries the event, a
   retryable one puts it off and at the third attempt buries it, one that nobody catches
   leaves it locked; with no such consumer it is dispatched.
   */
  lemma VisitOutcome(cfg: Config, ev: Event, name: string, script: Script, now: int) returns (i: nat)
    requires ValidConfig(cfg) && ev.row.status == Locked
    ensures StopsAt(cfg, ev, script, i)
    ensures HandlersOf(cfg, ev)
            == if ev.row.eventType in cfg.handlers then cfg.handlers[ev.row.eventType] else []
    ensures var ended, hs := VisitOf(cfg, ev, name, script, now), HandlersOf(cfg, ev);
            var status, listed := ended.event.row.status, i < |hs| && IsListed(cfg, ev, hs[i]);
            && (status == Dispatched <==> i == |hs|)
            && (status == FailedRetryable <==>
                  listed && script(hs[i]) == Comes(RaisesRetryable) && |ev.attempts| < 2)
            && (status == DeadLettered <==>
                  i < |hs| && (!listed || script(hs[i]) == Comes(RaisesPermanent)
                               || (script(hs[i]) == Comes(RaisesRetryable) && |ev.attempts| >= 2)))
            && (status == Locked <==> listed && script(hs[i]) == Escapes)
            && (ended.escaped <==> listed && script(hs[i]) == Escapes)
  {
    hide VisitOf, RowsLeft, CallsOf;
    i := StopsSomewhere(cfg, ev, script, 0);
    if i == |HandlersOf(cfg, ev)| {
      VisitDispatches(cfg, ev, name, script, now);
    } else {
      var c := HandlersOf(cfg, ev)[i];
      if !IsListed(cfg, ev, c) {
        VisitBuries(cfg, ev, name, script, now, i);
      } else {
        assert !Passes(cfg, ev, c, script);
        match script(c)
        case Escapes => VisitEscapes(cfg, ev, name, script, now, i);
        case Comes(RaisesRetryable) => VisitPutsOff(cfg, ev, name, script, now, i);
        case Comes(RaisesPermanent) => VisitBuries(cfg, ev, name, script, now, i);
        case Comes(ReturnsNormally) =>
      }
    }
  }

  // ---- A batch ----

  /** Event `k` of the batch is as the visit its own handlers make of it leaves it. */
  ghost predicate IsVisitedAt(cfg: Config, before: map<EventId, Event>, after: map<EventId, Event>,
                              queue: seq<EventId>, k: nat, name: string, script: EventId -> Script, now: int)
    requires k < |queue| && queue[k] in before && queue[k] in after
  {
    after[queue[k]] == VisitOf(cfg, before[queue[k]], name, script(queue[k]), now).event
  }

  ghost predicate EscapesAt(cfg: Config, before: map<EventId, Event>, queue: seq<EventId>, k: nat, name: string,
                            script: EventId -> Script, now: int)
    requires k < |queue| && queue[k] in before
  {
    VisitOf(cfg, before[queue[k]], name, script(queue[k]), now).escaped
  }

  /** The first visit from which an exception escapes; there is none when `k` is their number. */
  ghost predicate AbandonedAt(cfg: Config, before: map<EventId, Event>, queue: seq<EventId>, k: nat, name: string,
                              script: EventId -> Script, now: int)
    requires forall e :: e in queue ==> e in before
  {
    && k <= |queue|
    && (forall j :: 0 <= j < k ==> !EscapesAt(cfg, before, queue, j, name, script, now))
    && (k < |queue| ==> EscapesAt(cfg, before, queue, k, name, script, now))
  }

  /** The first `k` events of the batch have had their visits, all others are as they were. */
  ghost predicate VisitedUpTo(cfg: Config, before: map<EventId, Event>, after: map<EventId, Event>,
                              queue: seq<EventId>, k: nat, name: string, script: EventId -> Script, now: int)
    requires forall e :: e in queue ==> e in before
  {
    && after.Keys == before.Keys
    && (forall j :: 0 <= j < k && j < |queue| ==> IsVisitedAt(cfg, before, after, queue, j, name, script, now))
    && (forall j :: k <= j < |queue| ==> after[queue[j]] == before[queue[j]])
    && (forall e :: e in before && e !in queue ==> after[e] == before[e])
  }

  lemma OneMoreVisit(cfg: Config, before: map<EventId, Event>, mid: map<EventId, Event>, queue: seq<EventId>, k: nat,
                     name: string, script: EventId -> Script, now: int)
    requires NoRepeats(queue) && k < |queue| && forall e :: e in queue ==> e in before
    requires VisitedUpTo(cfg, before, mid, queue, k, name, script, now)
    ensures queue[k] in mid && mid[queue[k]] == before[queue[k]]
    ensures var ended := VisitOf(cfg, before[queue[k]], name, script(queue[k]), now);
            VisitedUpTo(cfg, before, mid[queue[k] := ended.event], queue, k + 1, name, script, now)
  {
    hide VisitOf;
    var after := mid[queue[k] := VisitOf(cfg, before[queue[k]], name, script(queue[k]), now).event];
    forall j | 0 <= j < k + 1
      ensures IsVisitedAt(cfg, before, after, queue, j, name, script, now)
    {
      if j < k {
        assert IsVisitedAt(cfg, before, mid, queue, j, name, script, now);
        assert queue[j] != queue[k];
      }
    }
  }

  lemma {:induction false} UnabandonedBatch(cfg: Config, events: map<EventId, Event>, queue: seq<EventId>, k: nat,
                                            name: string, script: EventId -> Script, now: int)
    requires NoRepeats(queue) && k <= |queue| && forall e :: e in queue ==> e in events
    requires forall j :: 0 <= j < k ==> !EscapesAt(cfg, events, queue, j, name, script, now)
    ensures var r := DispatchAll(cfg, events, queue[..k], name, script, now);
            !r.escaped && VisitedUpTo(cfg, events, r.events, queue, k, name, script, now)
    decreases k
  {
    if k == 0 {
      assert queue[..0] == [];
    } else {
      UnabandonedBatch(cfg, events, queue, k - 1, name, script, now);
      NextInBatch(cfg, events, queue, k - 1, name, script, now);
      assert !EscapesAt(cfg, events, queue, k - 1, name, script, now);
    }
  }

  lemma NextInBatch(cfg: Config, events: map<EventId, Event>, queue: seq<EventId>, k: nat, name: string,
                    script: EventId -> Script, now: int)
    requires NoRepeats(queue) && k < |queue| && forall e :: e in queue ==> e in events
    requires var r := DispatchAll(cfg, events, queue[..k], name, script, now);
             !r.escaped && VisitedUpTo(cfg, events, r.events, queue, k, name, script, now)
    ensures var r := DispatchAll(cfg, events, queue[..k + 1], name, script, now);
            && VisitedUpTo(cfg, events, r.events, queue, k + 1, name, script, now)
            && r.escaped == EscapesAt(cfg, events, queue, k, name, script, now)
  {
    hide VisitOf, VisitedUpTo, DispatchAll, NoRepeats;
    OneMoreVisit(cfg, events, DispatchAll(cfg, events, queue[..k], name, script, now).events, queue, k, name, script,
                 now);
    DispatchAllNext(cfg, events, queue, k, name, script, now);
  }

  /**
   A batch gives each event in turn the visit its own handlers make of it, as it was when
   it was locked, up to and with the first from which an exception escapes; later events
   and all others stay as they were.
   */
  lemma BatchVisitsEach(cfg: Config, events: map<EventId, Event>, queue: seq<EventId>, k: nat, name: string,
                        script: EventId -> Script, now: int)
    requires NoRepeats(queue) && forall e :: e in queue ==> e in events
    requires AbandonedAt(cfg, events, queue, k, name, script, now)
    ensures var r := DispatchAll(cfg, events, queue, name, script, now);
            && VisitedUpTo(cfg, events, r.events, queue, k + 1, name, script, now)
            && (r.escaped <==> k < |queue|)
  {
    hide VisitOf, DispatchAll, NoRepeats;
    UnabandonedBatch(cfg, events, queue, k, name, script, now);
    if k < |queue| {
      NextInBatch(cfg, events, queue, k, name, script, now);
      EscapeAbandons(cfg, events, queue, k + 1, name, script, now);
    } else {
      assert queue[..k] == queue;
    }
  }
}
