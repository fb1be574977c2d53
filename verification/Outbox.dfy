/**
 Dispatch of one outbox event as the sequence of database writes the relay makes.
 A relay may die between any two of them, and a handler that raises an exception
 the dispatch loop does not catch is such a death.
 */
module Outbox {
  import opened Options
  import opened EventModel
  import opened Retry

  /** The handler table and the consumer allowlists, both fixed. */
  datatype Config = Config(handlers: map<string, seq<string>>, allowed: map<string, set<string>>)

  predicate Distinct(names: seq<string>) {
    forall i, j :: 0 <= i < j < |names| ==> names[i] != names[j]
  }

  predicate ValidConfig(cfg: Config) {
    forall t :: t in cfg.handlers ==> Distinct(cfg.handlers[t])
  }

  function HandlersOf(cfg: Config, ev: Event): seq<string> {
    if ev.row.eventType in cfg.handlers then cfg.handlers[ev.row.eventType] else []
  }

  predicate Authorized(cfg: Config, ev: Event, c: string) {
    ev.row.eventType in cfg.allowed && c in cfg.allowed[ev.row.eventType]
  }

  function StatusOf(ev: Event, c: string): Option<ConsumerStatus> {
    if c in ev.consumers then Some(ev.consumers[c]) else None
  }

  /** Completed work and work in flight are both skipped. */
  predicate ShouldSkip(status: Option<ConsumerStatus>) {
    status == Some(Started) || status == Some(Processed)
  }

  datatype Failure = Retryable | Permanent

  datatype Outcome = ReturnsNormally | RaisesRetryable | RaisesPermanent

  /** The next write of a relay that has an attempt open. */
  datatype Phase =
    | Examine(i: nat)                            // look at handler i, or finish when there is none
    | Calling(i: nat)                            // consumer row written, handler i runs
    | Returned(i: nat)                           // handler i returned, not yet recorded
    | Failing(consumer: string, kind: Failure)   // exception caught, consumer row not yet failed
    | FailureNoted(kind: Failure)                // consumer row failed
    | RetryNoted                                 // attempt saved as failed retryable
    | DeadMarked(exhausted: bool)                // event saved as dead lettered, no record yet
    | DeadRecorded                               // record created, attempt not yet closed
    | DispatchMarked                             // event saved as dispatched, attempt not yet closed

  datatype Progress = Progress(event: Event, next: Option<Phase>)

  function SetStatus(ev: Event, status: EventStatus): Event {
    ev.(row := ev.row.(status := status))
  }

  function SetConsumer(ev: Event, c: string, status: ConsumerStatus): Event {
    ev.(consumers := ev.consumers[c := status])
  }

  function CloseAttempt(ev: Event, n: nat, status: AttemptStatus, now: int): Event
    requires 1 <= n <= |ev.attempts|
  {
    ev.(attempts := ev.attempts[n - 1 := ev.attempts[n - 1].(status := status, finishedAt := Some(now))])
  }

  function LogCall(ev: Event, c: string, returned: bool): Event {
    ev.(history := ev.history.(calls := ev.history.calls + [Call(c, returned)]))
  }

  function OpenAttempt(ev: Event, dispatcher: string): Event {
    ev.(attempts := ev.attempts + [Attempt(|ev.attempts| + 1, dispatcher, AttemptStarted, None)])
  }

  function LockRow(ev: Event, now: int, dispatcher: string): Event {
    ev.(row := ev.row.(status := Locked, lockedAt := Some(now), lockedBy := dispatcher))
  }

  /** The consumer that is being handled. */
  function OpenOf(cfg: Config, ev: Event, ph: Phase): Option<string> {
    if (ph.Returned? || ph.Calling?) && ph.i < |HandlersOf(cfg, ev)| then Some(HandlersOf(cfg, ev)[ph.i])
    else if ph.Failing? then Some(ph.consumer)
    else None
  }

  /** Its row is started: a death now leaves it so. */
  predicate LeavesStarted(cfg: Config, ev: Event, ph: Phase, c: string) {
    OpenOf(cfg, ev, ph) == Some(c) && StatusOf(ev, c) == Some(Started)
  }

  function LeftStarted(cfg: Config, ev: Event, ph: Phase): (left: set<string>)
    ensures forall c :: c in left <==> LeavesStarted(cfg, ev, ph, c)
  {
    match OpenOf(cfg, ev, ph)
    case None => {}
    case Some(c) => if LeavesStarted(cfg, ev, ph, c) then {c} else {}
  }

  /** The relay died with an attempt open. */
  function Interrupt(cfg: Config, ev: Event, ph: Phase): Event {
    ev.(history := ev.history.(interruptions := ev.history.interruptions + 1,
                               lostRecord := ev.history.lostRecord || ph.DeadMarked?,
                               stuck := ev.history.stuck + LeftStarted(cfg, ev, ph)))
  }

  /** Save the event as failed retryable, to be tried again after the delay for attempt `n`. */
  function ScheduleRetry(ev: Event, n: nat, now: int): Event
    requires 1 <= n
  {
    ev.(row := ev.row.(status := FailedRetryable, availableAt := now + RetryDelay(n)),
        history := ev.history.(retries := ev.history.retries + 1))
  }

  /** The phase can act on this event: indices and attempt numbers exist. */
  predicate Fits(cfg: Config, ev: Event, n: nat, ph: Phase) {
    && 1 <= n <= |ev.attempts|
    && (ph.Examine? ==> ph.i <= |HandlersOf(cfg, ev)|)
    && (ph.Calling? || ph.Returned? ==> ph.i < |HandlersOf(cfg, ev)|)
  }

  /** One write of the relay; `outcome` is what the handler does when one is running. */
  function Step(cfg: Config, ev: Event, n: nat, ph: Phase, outcome: Outcome, now: int): Progress
    requires Fits(cfg, ev, n, ph)
  {
    var hs := HandlersOf(cfg, ev);
    match ph
    case Examine(i) =>
      if i == |hs| then
        Progress(SetStatus(ev, Dispatched).(row := ev.row.(status := Dispatched, dispatchedAt := Some(now))),
                 Some(DispatchMarked))
      else if !Authorized(cfg, ev, hs[i]) then Progress(ev, Some(Failing(hs[i], Permanent)))
      else if ShouldSkip(StatusOf(ev, hs[i])) then Progress(ev, Some(Examine(i + 1)))
      else if hs[i] in ev.consumers then Progress(ev, Some(Calling(i)))
      else Progress(SetConsumer(ev, hs[i], Started), Some(Calling(i)))
    case Calling(i) =>
      (match outcome
       case ReturnsNormally => Progress(LogCall(ev, hs[i], true), Some(Returned(i)))
       case RaisesRetryable => Progress(LogCall(ev, hs[i], false), Some(Failing(hs[i], Retryable)))
       case RaisesPermanent => Progress(LogCall(ev, hs[i], false), Some(Failing(hs[i], Permanent))))
    case Returned(i) => Progress(SetConsumer(ev, hs[i], Processed), Some(Examine(i + 1)))
    case Failing(c, kind) =>
      if c !in ev.consumers then Progress(SetConsumer(ev, c, Started), Some(ph))
      else Progress(SetConsumer(ev, c, Failed), Some(FailureNoted(kind)))
    case FailureNoted(kind) =>
      (match kind
       case Retryable => Progress(CloseAttempt(ev, n, AttemptFailedRetryable, now), Some(RetryNoted))
       case Permanent => Progress(SetStatus(ev, DeadLettered), Some(DeadMarked(false))))
    case RetryNoted =>
      if DecideRetry(RetryableFailure, n, MAX_RETRY_ATTEMPTS).shouldDeadLetter then
        Progress(SetStatus(ev, DeadLettered), Some(DeadMarked(true)))
      else Progress(ScheduleRetry(ev, n, now), None)
    case DeadMarked(exhausted) =>
      var record := DeadLetter(if exhausted then MaxRetriesExceeded else PermanentFailure, n);
      Progress(ev.(deadLetters := ev.deadLetters + [record]), if exhausted then None else Some(DeadRecorded))
    case DeadRecorded => Progress(CloseAttempt(ev, n, AttemptDeadLettered, now), None)
    case DispatchMarked => Progress(CloseAttempt(ev, n, AttemptSucceeded, now), None)
  }

  // ---- What holds of an event, between visits and during one ----

  predicate Terminal(ev: Event) {
    ev.row.status == Dispatched || ev.row.status == DeadLettered
  }

  ghost predicate Numbered(ev: Event) {
    forall i :: 0 <= i < |ev.attempts| ==> ev.attempts[i].number == i + 1
  }

  function Bit(b: bool): nat { if b then 1 else 0 }

  /**
   Delivery accounting.  `extra` is the consumer whose handler has returned without
   being recorded yet, `open` the one that may be started without a death.
   */
  ghost predicate Accounted(cfg: Config, ev: Event, extra: Option<string>, open: Option<string>) {
    var h := ev.history;
    && (forall c ::
          Returns(h.calls, c) <= h.interruptions + Bit(StatusOf(ev, c) == Some(Processed) || extra == Some(c)))
    && (forall c :: StatusOf(ev, c) == Some(Processed) ==> Authorized(cfg, ev, c) && 1 <= Returns(h.calls, c))
    && (forall c :: StatusOf(ev, c) == Some(Started) ==> 0 < h.interruptions || open == Some(c))
  }

  ghost predicate SkippedUpTo(cfg: Config, ev: Event, i: nat)
    requires i <= |HandlersOf(cfg, ev)|
  {
    forall j :: 0 <= j < i ==>
      Authorized(cfg, ev, HandlersOf(cfg, ev)[j]) && ShouldSkip(StatusOf(ev, HandlersOf(cfg, ev)[j]))
  }

  /** Started rows belong to the open consumer or were left by a death, and those of allowed consumers stay so. */
  ghost predicate StartsExplained(cfg: Config, ev: Event, open: Option<string>) {
    && (forall c :: StatusOf(ev, c) == Some(Started) ==> c in ev.history.stuck || open == Some(c))
    && (forall c :: c in ev.history.stuck && Authorized(cfg, ev, c) ==>
          StatusOf(ev, c) == Some(Started) && open != Some(c))
  }

  ghost predicate AwaitingRetry(ev: Event) {
    var n := |ev.attempts|;
    && 1 <= n <= 2
    && ev.attempts[n - 1].status == AttemptFailedRetryable
    && ev.attempts[n - 1].finishedAt.Some?
    && ev.attempts[n - 1].finishedAt.value + RetryDelay(n) <= ev.row.availableAt
  }

  /** An event no relay has an attempt open on. */
  ghost predicate Resting(cfg: Config, ev: Event) {
    var h, n := ev.history, |ev.attempts|;
    && Numbered(ev)
    && Accounted(cfg, ev, None, None)
    && StartsExplained(cfg, ev, None)
    && h.retries <= 2 && h.retries <= n
    && ev.row.status != DiscardedInvalid
    && (!Terminal(ev) ==> n == h.retries + h.interruptions && ev.deadLetters == [] && !h.lostRecord)
    && (Terminal(ev) ==> 1 <= n <= h.retries + h.interruptions + 1)
    && (ev.row.status == FailedRetryable ==> AwaitingRetry(ev))
    && (ev.row.status == Dispatched ==>
          SkippedUpTo(cfg, ev, |HandlersOf(cfg, ev)|) && ev.deadLetters == [] && !h.lostRecord)
    && (ev.row.status == DeadLettered ==> DeadLetterAgrees(ev))
  }

  /** At most one dead-letter row; it counts all attempts; it is absent only when a death lost it. */
  ghost predicate DeadLetterAgrees(ev: Event) {
    && |ev.deadLetters| == Bit(!ev.history.lostRecord)
    && (ev.deadLetters != [] ==> ev.deadLetters[0].failedAfterAttempts == |ev.attempts|)
  }

  function ExtraOf(cfg: Config, ev: Event, n: nat, ph: Phase): Option<string>
    requires Fits(cfg, ev, n, ph)
  {
    if ph.Returned? then Some(HandlersOf(cfg, ev)[ph.i]) else None
  }

  predicate BeforeOutcome(ph: Phase) {
    ph.Examine? || ph.Calling? || ph.Returned? || ph.Failing? || ph.FailureNoted? || ph.RetryNoted?
  }

  /** An event a relay has attempt `n` open on, about to make the write `ph`. */
  ghost predicate Active(cfg: Config, ev: Event, n: nat, ph: Phase, now: int) {
    && Fits(cfg, ev, n, ph)
    && n == |ev.attempts| == ev.history.retries + ev.history.interruptions + 1
    && Numbered(ev)
    && Accounted(cfg, ev, ExtraOf(cfg, ev, n, ph), OpenOf(cfg, ev, ph))
    && StartsExplained(cfg, ev, OpenOf(cfg, ev, ph))
    && ev.history.retries <= 2
    && !ev.history.lostRecord
    && (BeforeOutcome(ph) ==> ev.row.status == Locked)
    && (!ph.DeadRecorded? ==> ev.deadLetters == [])
    && match ph
       case Examine(i) => SkippedUpTo(cfg, ev, i)
       case Calling(i) => SkippedUpTo(cfg, ev, i) && Authorized(cfg, ev, HandlersOf(cfg, ev)[i])
                          && HandlersOf(cfg, ev)[i] in ev.consumers
                          && StatusOf(ev, HandlersOf(cfg, ev)[i]) != Some(Processed)
       case Returned(i) => SkippedUpTo(cfg, ev, i) && Authorized(cfg, ev, HandlersOf(cfg, ev)[i])
                           && StatusOf(ev, HandlersOf(cfg, ev)[i]) != Some(Processed)
                           && 1 <= Returns(ev.history.calls, HandlersOf(cfg, ev)[i])
       case Failing(c, _) => StatusOf(ev, c) != Some(Processed)
       case FailureNoted(_) => true
       case RetryNoted => var a := ev.attempts[n - 1];
                          a.status == AttemptFailedRetryable && a.finishedAt.Some? && a.finishedAt.value <= now
       case DeadMarked(_) => ev.row.status == DeadLettered
       case DeadRecorded => ev.row.status == DeadLettered
                            && |ev.deadLetters| == 1 && ev.deadLetters[0].failedAfterAttempts == n
       case DispatchMarked => ev.row.status == Dispatched && SkippedUpTo(cfg, ev, |HandlersOf(cfg, ev)|)
  }

  /** Taking up a locked event opens the next attempt. */
  lemma OpeningActivates(cfg: Config, ev: Event, dispatcher: string, now: int)
    requires Resting(cfg, ev) && ev.row.status == Locked
    ensures Active(cfg, OpenAttempt(ev, dispatcher), |ev.attempts| + 1, Examine(0), now)
  {
  }

  /** Logging a call of `c`, which is not recorded as processed, keeps the accounts. */
  lemma LoggingAccounts(cfg: Config, ev: Event, c: string, returned: bool)
    requires Accounted(cfg, ev, None, Some(c)) && StatusOf(ev, c) != Some(Processed)
    ensures Accounted(cfg, LogCall(ev, c, returned), if returned then Some(c) else None, Some(c))
    ensures returned ==> 1 <= Returns(LogCall(ev, c, returned).history.calls, c)
  {
    var ev' := LogCall(ev, c, returned);
    assert ev'.history.interruptions == ev.history.interruptions;
    forall d
      ensures StatusOf(ev', d) == StatusOf(ev, d)
      ensures Returns(ev'.history.calls, d) == Returns(ev.history.calls, d) + Bit(d == c && returned)
    {
      ReturnsOfOneMore(ev.history.calls, Call(c, returned), d);
    }
  }

  /** The explanation of started rows reads the consumer rows and the deaths, nothing else. */
  lemma SameStarts(cfg: Config, ev: Event, ev': Event, open: Option<string>)
    requires StartsExplained(cfg, ev, open)
    requires ev'.consumers == ev.consumers && ev'.row.eventType == ev.row.eventType
    requires ev'.history.stuck == ev.history.stuck
    ensures StartsExplained(cfg, ev', open)
  {
    forall c
      ensures StatusOf(ev', c) == StatusOf(ev, c) && Authorized(cfg, ev', c) == Authorized(cfg, ev, c)
    {
    }
  }

  lemma LoggingKeepsSkipped(cfg: Config, ev: Event, c: string, returned: bool, i: nat)
    requires i <= |HandlersOf(cfg, ev)| && SkippedUpTo(cfg, ev, i)
    ensures HandlersOf(cfg, LogCall(ev, c, returned)) == HandlersOf(cfg, ev)
    ensures SkippedUpTo(cfg, LogCall(ev, c, returned), i)
  {
    forall j | 0 <= j < i
      ensures ShouldSkip(StatusOf(LogCall(ev, c, returned), HandlersOf(cfg, ev)[j]))
      ensures Authorized(cfg, LogCall(ev, c, returned), HandlersOf(cfg, ev)[j])
    {
      assert ShouldSkip(StatusOf(ev, HandlersOf(cfg, ev)[j])) && Authorized(cfg, ev, HandlersOf(cfg, ev)[j]);
    }
  }

  lemma ReturningKeepsInvariant(cfg: Config, ev: Event, n: nat, i: nat, now: int)
    requires Active(cfg, ev, n, Calling(i), now)
    ensures Active(cfg, LogCall(ev, HandlersOf(cfg, ev)[i], true), n, Returned(i), now)
  {
    hide Accounted, StartsExplained, SkippedUpTo, ShouldSkip;
    var c := HandlersOf(cfg, ev)[i];
    LoggingAccounts(cfg, ev, c, true);
    LoggingKeepsSkipped(cfg, ev, c, true, i);
    SameStarts(cfg, ev, LogCall(ev, c, true), Some(c));
  }

  lemma RaisingKeepsInvariant(cfg: Config, ev: Event, n: nat, i: nat, kind: Failure, now: int)
    requires Active(cfg, ev, n, Calling(i), now)
    ensures var c := HandlersOf(cfg, ev)[i];
            Active(cfg, LogCall(ev, c, false), n, Failing(c, kind), now)
  {
    hide Accounted, StartsExplained;
    var c := HandlersOf(cfg, ev)[i];
    LoggingAccounts(cfg, ev, c, false);
    SameStarts(cfg, ev, LogCall(ev, c, false), Some(c));
  }

  lemma CallingKeepsInvariant(cfg: Config, ev: Event, n: nat, i: nat, outcome: Outcome, now: int)
    requires ValidConfig(cfg) && Active(cfg, ev, n, Calling(i), now)
    ensures var p := Step(cfg, ev, n, Calling(i), outcome, now);
            p.next.Some? && Active(cfg, p.event, n, p.next.value, now)
  {
    match outcome
    case ReturnsNormally => ReturningKeepsInvariant(cfg, ev, n, i, now);
    case RaisesRetryable => RaisingKeepsInvariant(cfg, ev, n, i, Retryable, now);
    case RaisesPermanent => RaisingKeepsInvariant(cfg, ev, n, i, Permanent, now);
  }

  /** Changing the consumer row of a pair that is not processed keeps the accounts. */
  lemma ConsumerAccounts(cfg: Config, ev: Event, c: string, status: ConsumerStatus, extra: Option<string>)
    requires Accounted(cfg, ev, extra, Some(c)) || (extra == None && Accounted(cfg, ev, None, None))
    requires StatusOf(ev, c) != Some(Processed)
    requires extra == None || extra == Some(c)
    requires status == Processed ==>
               extra == Some(c) && Authorized(cfg, ev, c) && 1 <= Returns(ev.history.calls, c)
    ensures Accounted(cfg, SetConsumer(ev, c, status), if status == Processed then None else extra,
                      if status == Started then Some(c) else None)
  {
    var ev' := SetConsumer(ev, c, status);
    forall d
      ensures StatusOf(ev', d) == if d == c then Some(status) else StatusOf(ev, d)
    {
    }
  }

  /** Changing the row of the consumer that is being handled keeps the explanation. */
  lemma ConsumerStarts(cfg: Config, ev: Event, c: string, status: ConsumerStatus, open: Option<string>)
    requires StartsExplained(cfg, ev, open) && (open == None || open == Some(c))
    requires StatusOf(ev, c) != Some(Started) || open == Some(c)
    ensures StartsExplained(cfg, SetConsumer(ev, c, status), if status == Started then Some(c) else None)
  {
    var ev' := SetConsumer(ev, c, status);
    forall d
      ensures StatusOf(ev', d) == if d == c then Some(status) else StatusOf(ev, d)
      ensures Authorized(cfg, ev', d) == Authorized(cfg, ev, d)
    {
    }
  }

  /** The accounts read the consumer rows, the calls and the interruptions, nothing else. */
  lemma SameAccounts(cfg: Config, ev: Event, ev': Event, extra: Option<string>, open: Option<string>)
    requires Accounted(cfg, ev, extra, open)
    requires ev'.consumers == ev.consumers && ev'.row.eventType == ev.row.eventType
    requires ev'.history.calls == ev.history.calls
    requires ev'.history.interruptions == ev.history.interruptions
    ensures Accounted(cfg, ev', extra, open)
    ensures HandlersOf(cfg, ev') == HandlersOf(cfg, ev)
    ensures forall i :: 0 <= i <= |HandlersOf(cfg, ev)| ==> SkippedUpTo(cfg, ev, i) == SkippedUpTo(cfg, ev', i)
  {
    forall c
      ensures StatusOf(ev', c) == StatusOf(ev, c) && Authorized(cfg, ev', c) == Authorized(cfg, ev, c)
    {
    }
  }

  lemma StartingKeepsInvariant(cfg: Config, ev: Event, n: nat, i: nat, now: int)
    requires ValidConfig(cfg) && Active(cfg, ev, n, Examine(i), now)
    requires i < |HandlersOf(cfg, ev)| && Authorized(cfg, ev, HandlersOf(cfg, ev)[i])
    requires HandlersOf(cfg, ev)[i] !in ev.consumers
    ensures Active(cfg, SetConsumer(ev, HandlersOf(cfg, ev)[i], Started), n, Calling(i), now)
  {
    var hs := HandlersOf(cfg, ev);
    ConsumerAccounts(cfg, ev, hs[i], Started, None);
    ConsumerStarts(cfg, ev, hs[i], Started, None);
    SettingKeepsSkipped(cfg, ev, i, Started);
    hide Accounted, StartsExplained, SkippedUpTo;
    assert SetConsumer(ev, hs[i], Started).consumers[hs[i]] == Started;
  }

  /** The row of handler `i` does not matter to the handlers before it. */
  lemma SettingKeepsSkipped(cfg: Config, ev: Event, i: nat, status: ConsumerStatus)
    requires ValidConfig(cfg) && i < |HandlersOf(cfg, ev)| && SkippedUpTo(cfg, ev, i)
    ensures var ev' := SetConsumer(ev, HandlersOf(cfg, ev)[i], status);
            && HandlersOf(cfg, ev') == HandlersOf(cfg, ev) && SkippedUpTo(cfg, ev', i)
            && (status == Processed && Authorized(cfg, ev, HandlersOf(cfg, ev)[i]) ==> SkippedUpTo(cfg, ev', i + 1))
  {
    var hs := HandlersOf(cfg, ev);
    var ev' := SetConsumer(ev, hs[i], status);
    forall j | 0 <= j < i
      ensures Authorized(cfg, ev', hs[j]) && ShouldSkip(StatusOf(ev', hs[j]))
    {
      assert hs[j] != hs[i] && Authorized(cfg, ev, hs[j]) && ShouldSkip(StatusOf(ev, hs[j]));
    }
  }

  /** The accounts with nobody open are the accounts with somebody open. */
  lemma OpenAccounts(cfg: Config, ev: Event, c: string)
    requires Accounted(cfg, ev, None, None)
    ensures Accounted(cfg, ev, None, Some(c))
  {
  }

  lemma ExamineKeepsInvariant(cfg: Config, ev: Event, n: nat, i: nat, outcome: Outcome, now: int)
    requires ValidConfig(cfg) && Active(cfg, ev, n, Examine(i), now)
    ensures var p := Step(cfg, ev, n, Examine(i), outcome, now);
            p.next.Some? && Active(cfg, p.event, n, p.next.value, now)
  {
    var hs := HandlersOf(cfg, ev);
    if i == |hs| {
      hide Accounted, StartsExplained, SkippedUpTo, ShouldSkip;
      var ev' := Step(cfg, ev, n, Examine(i), outcome, now).event;
      SameAccounts(cfg, ev, ev', None, None);
      SameStarts(cfg, ev, ev', None);
    } else if Authorized(cfg, ev, hs[i]) && hs[i] !in ev.consumers {
      hide Accounted, StartsExplained, SkippedUpTo, ShouldSkip, Active;
      StartingKeepsInvariant(cfg, ev, n, i, now);
    } else if Authorized(cfg, ev, hs[i]) && ShouldSkip(StatusOf(ev, hs[i])) {
      hide Accounted, StartsExplained;
    } else {
      hide Accounted, SkippedUpTo, Numbered;
      OpenAccounts(cfg, ev, hs[i]);
    }
  }

  lemma ReturnedKeepsInvariant(cfg: Config, ev: Event, n: nat, i: nat, outcome: Outcome, now: int)
    requires ValidConfig(cfg) && Active(cfg, ev, n, Returned(i), now)
    ensures var p := Step(cfg, ev, n, Returned(i), outcome, now);
            p.next.Some? && Active(cfg, p.event, n, p.next.value, now)
  {
    var hs := HandlersOf(cfg, ev);
    ConsumerAccounts(cfg, ev, hs[i], Processed, Some(hs[i]));
    ConsumerStarts(cfg, ev, hs[i], Processed, Some(hs[i]));
    SettingKeepsSkipped(cfg, ev, i, Processed);
    hide Accounted, StartsExplained, SkippedUpTo, ShouldSkip;
  }

  lemma FailingKeepsInvariant(cfg: Config, ev: Event, n: nat, c: string, kind: Failure, outcome: Outcome, now: int)
    requires ValidConfig(cfg) && Active(cfg, ev, n, Failing(c, kind), now)
    ensures var p := Step(cfg, ev, n, Failing(c, kind), outcome, now);
            p.next.Some? && Active(cfg, p.event, n, p.next.value, now)
  {
    ConsumerAccounts(cfg, ev, c, if c in ev.consumers then Failed else Started, None);
    ConsumerStarts(cfg, ev, c, if c in ev.consumers then Failed else Started, Some(c));
    hide Accounted, StartsExplained;
  }

  /** What a write outside the handler loop leaves as it was. */
  lemma SameConsumers(cfg: Config, ev: Event, ev': Event)
    requires Accounted(cfg, ev, None, None) && StartsExplained(cfg, ev, None)
    requires ev'.consumers == ev.consumers && ev'.row.eventType == ev.row.eventType
    requires ev'.history.calls == ev.history.calls && ev'.history.stuck == ev.history.stuck
    requires ev'.history.interruptions == ev.history.interruptions
    ensures Accounted(cfg, ev', None, None) && StartsExplained(cfg, ev', None)
    ensures HandlersOf(cfg, ev') == HandlersOf(cfg, ev)
    ensures SkippedUpTo(cfg, ev, |HandlersOf(cfg, ev)|) == SkippedUpTo(cfg, ev', |HandlersOf(cfg, ev')|)
  {
    SameAccounts(cfg, ev, ev', None, None);
    SameStarts(cfg, ev, ev', None);
  }

  lemma FailureNotedKeepsInvariant(cfg: Config, ev: Event, n: nat, kind: Failure, outcome: Outcome, now: int)
    requires Active(cfg, ev, n, FailureNoted(kind), now)
    ensures var p := Step(cfg, ev, n, FailureNoted(kind), outcome, now);
            p.next.Some? && Active(cfg, p.event, n, p.next.value, now)
  {
    hide Accounted, StartsExplained, SkippedUpTo;
    SameConsumers(cfg, ev, Step(cfg, ev, n, FailureNoted(kind), outcome, now).event);
  }

  lemma RetryNotedKeepsInvariant(cfg: Config, ev: Event, n: nat, outcome: Outcome, now: int)
    requires Active(cfg, ev, n, RetryNoted, now)
    ensures var p := Step(cfg, ev, n, RetryNoted, outcome, now);
            match p.next
            case Some(ph') => Active(cfg, p.event, n, ph', now)
            case None => Resting(cfg, p.event)
  {
    hide Accounted, StartsExplained, SkippedUpTo, RetryDelay;
    SameConsumers(cfg, ev, Step(cfg, ev, n, RetryNoted, outcome, now).event);
  }

  lemma DeadMarkedKeepsInvariant(cfg: Config, ev: Event, n: nat, exhausted: bool, outcome: Outcome, now: int)
    requires Active(cfg, ev, n, DeadMarked(exhausted), now)
    ensures var p := Step(cfg, ev, n, DeadMarked(exhausted), outcome, now);
            match p.next
            case Some(ph') => Active(cfg, p.event, n, ph', now)
            case None => Resting(cfg, p.event)
  {
    hide Accounted, StartsExplained, SkippedUpTo;
    SameConsumers(cfg, ev, Step(cfg, ev, n, DeadMarked(exhausted), outcome, now).event);
  }

  /** The last write of a visit closes the attempt. */
  lemma ClosingRests(cfg: Config, ev: Event, n: nat, ph: Phase, outcome: Outcome, now: int)
    requires Active(cfg, ev, n, ph, now) && (ph.DeadRecorded? || ph.DispatchMarked?)
    ensures var p := Step(cfg, ev, n, ph, outcome, now); p.next == None && Resting(cfg, p.event)
  {
    hide Accounted, StartsExplained, SkippedUpTo;
    SameConsumers(cfg, ev, Step(cfg, ev, n, ph, outcome, now).event);
  }

  /** Every write keeps the invariant, and the last one leaves the event at rest. */
  lemma StepKeepsInvariant(cfg: Config, ev: Event, n: nat, ph: Phase, outcome: Outcome, now: int)
    requires ValidConfig(cfg) && Active(cfg, ev, n, ph, now)
    ensures var p := Step(cfg, ev, n, ph, outcome, now);
            match p.next
            case Some(ph') => Active(cfg, p.event, n, ph', now)
            case None => Resting(cfg, p.event)
  {
    match ph
    case Examine(i) => ExamineKeepsInvariant(cfg, ev, n, i, outcome, now);
    case Calling(i) => CallingKeepsInvariant(cfg, ev, n, i, outcome, now);
    case Returned(i) => ReturnedKeepsInvariant(cfg, ev, n, i, outcome, now);
    case Failing(c, kind) => FailingKeepsInvariant(cfg, ev, n, c, kind, outcome, now);
    case FailureNoted(kind) => FailureNotedKeepsInvariant(cfg, ev, n, kind, outcome, now);
    case RetryNoted => RetryNotedKeepsInvariant(cfg, ev, n, outcome, now);
    case DeadMarked(exhausted) => DeadMarkedKeepsInvariant(cfg, ev, n, exhausted, outcome, now);
    case _ => ClosingRests(cfg, ev, n, ph, outcome, now);
  }

  lemma InterruptConsumers(cfg: Config, ev: Event, n: nat, ph: Phase, now: int)
    requires Active(cfg, ev, n, ph, now)
    ensures var ev' := Interrupt(cfg, ev, ph);
            && Accounted(cfg, ev', None, None) && StartsExplained(cfg, ev', None)
            && HandlersOf(cfg, ev') == HandlersOf(cfg, ev)
            && SkippedUpTo(cfg, ev', |HandlersOf(cfg, ev)|) == SkippedUpTo(cfg, ev, |HandlersOf(cfg, ev)|)
  {
    var ev' := Interrupt(cfg, ev, ph);
    forall c
      ensures StatusOf(ev', c) == StatusOf(ev, c) && Authorized(cfg, ev', c) == Authorized(cfg, ev, c)
    {
    }
  }

  /** Dying with an attempt open leaves the event at rest too, with one more interruption. */
  lemma InterruptRests(cfg: Config, ev: Event, n: nat, ph: Phase, now: int)
    requires Active(cfg, ev, n, ph, now)
    ensures Resting(cfg, Interrupt(cfg, ev, ph))
  {
    InterruptConsumers(cfg, ev, n, ph, now);
    hide Accounted, StartsExplained, SkippedUpTo, LeftStarted;
  }

  // ---- What can change, over any number of writes ----

  /**
   Everything an event never goes back on: its identity, its final status, its
   processed consumers, its attempts, calls and dead letters; and the handler of a
   processed consumer is never called again.
   */
  ghost predicate Evolves(ev: Event, ev': Event) {
    && ev'.row.eventType == ev.row.eventType && ev'.row.idempotencyKey == ev.row.idempotencyKey
    && (Terminal(ev) ==> ev'.row.status == ev.row.status)
    && (forall c :: StatusOf(ev, c) == Some(Processed) ==> StatusOf(ev', c) == Some(Processed))
    && |ev.attempts| <= |ev'.attempts|
    && ev.deadLetters <= ev'.deadLetters
    && ev.history.retries <= ev'.history.retries
    && ev.history.interruptions <= ev'.history.interruptions
    && ev.history.calls <= ev'.history.calls
    && (forall k :: |ev.history.calls| <= k < |ev'.history.calls| ==>
          StatusOf(ev, ev'.history.calls[k].consumer) != Some(Processed))
  }

  lemma EvolvesTransitive(a: Event, b: Event, c: Event)
    requires Evolves(a, b) && Evolves(b, c)
    ensures Evolves(a, c)
  {
    forall k | |a.history.calls| <= k < |c.history.calls|
      ensures StatusOf(a, c.history.calls[k].consumer) != Some(Processed)
    {
      if k < |b.history.calls| {
        assert c.history.calls[k] == b.history.calls[k];
      }
    }
  }

  lemma StepEvolves(cfg: Config, ev: Event, n: nat, ph: Phase, outcome: Outcome, now: int)
    requires Active(cfg, ev, n, ph, now)
    ensures Evolves(ev, Step(cfg, ev, n, ph, outcome, now).event)
  {
    var ev' := Step(cfg, ev, n, ph, outcome, now).event;
    forall c
      ensures StatusOf(ev, c) == Some(Processed) ==> StatusOf(ev', c) == Some(Processed)
    {
      assert ph.Calling? || ph.DeadMarked? || ev'.history.calls == ev.history.calls;
    }
  }

  /** A write changes the counters only by scheduling a retry, which is the last write of attempt 1 or 2. */
  lemma StepHistory(cfg: Config, ev: Event, n: nat, ph: Phase, outcome: Outcome, now: int)
    requires Active(cfg, ev, n, ph, now)
    ensures var ev' := Step(cfg, ev, n, ph, outcome, now).event;
            && ev.row.status != FailedRetryable
            && ev'.history.interruptions == ev.history.interruptions
            && ev'.history.lostRecord == ev.history.lostRecord
            && ev'.history.stuck == ev.history.stuck
            && ev'.history.retries == ev.history.retries + Bit(ev'.row.status == FailedRetryable)
            && (ev'.row.status == FailedRetryable ==>
                  |ev'.attempts| == n <= 2 && ev'.row.availableAt == now + RetryDelay(n))
  {
  }
}
