/** What every run of the relays satisfies, whatever handlers do and wherever relays die. */
module RelayRuns {
  import opened Options
  import opened EventModel
  import opened Retry
  import opened Sorting
  import opened Outbox
  import opened Planner
  import opened Relays

  datatype Run = Run(mode: Concurrency, cfg: Config, states: seq<Sys>, actions: seq<Action>)

  ghost predicate IsRun(run: Run) {
    && ValidConfig(run.cfg)
    && |run.states| == |run.actions| + 1
    && run.states[0].events == map[] && run.states[0].relays == map[]
    && forall k :: 0 <= k < |run.actions| ==> IsStep(run, k)
  }

  ghost predicate IsStep(run: Run, k: nat)
    requires k < |run.actions| < |run.states|
  {
    && Enabled(run.mode, run.cfg, run.states[k], run.actions[k])
    && run.states[k + 1] == Apply(run.mode, run.cfg, run.states[k], run.actions[k])
  }

  lemma {:induction false} RunInv(run: Run, k: nat)
    requires IsRun(run) && k < |run.states|
    ensures Inv(run.mode, run.cfg, run.states[k])
  {
    if 0 < k {
      RunInv(run, k - 1);
      assert IsStep(run, k - 1);
      ApplyKeepsInv(run.mode, run.cfg, run.states[k - 1], run.actions[k - 1]);
    }
  }

  /** Lease safety: no event is ever still to be processed by two relays at once. */
  lemma NoEventHeldTwice(run: Run, k: nat, q: RelayId, r: RelayId, e: EventId)
    requires IsRun(run) && k < |run.states|
    requires q in run.states[k].relays && r in run.states[k].relays && q != r
    ensures !(Holds(run.states[k].relays[q], e) && Holds(run.states[k].relays[r], e))
  {
    RunInv(run, k);
  }

  /**
   What the lease is for: a row that a relay still has to process is eligible for
   another relay at a later time exactly when it is due and more than the lease has
   passed since it was locked.
   */
  lemma HeldRowsExpire(run: Run, k: nat, r: RelayId, e: EventId, time: int)
    requires IsRun(run) && k < |run.states| && r in run.states[k].relays && e in run.states[k].relays[r].rest
    ensures e in run.states[k].events
    ensures var row := run.states[k].events[e].row;
            Eligible(row, time, LOCK_TIMEOUT_SECONDS) <==>
            row.availableAt <= time && run.states[k].relays[r].lockedAt + 300 < time
  {
    RunInv(run, k);
    assert RelayOk(run.mode, run.cfg, run.states[k], run.states[k].relays[r]);
    assert HeldRow(run.states[k], e, run.states[k].relays[r].lockedAt);
  }

  /** No row disappears, final statuses are final, processed consumers stay processed and are not called again. */
  lemma {:induction false} EventsEvolve(run: Run, i: nat, j: nat, e: EventId)
    requires IsRun(run) && i <= j < |run.states| && e in run.states[i].events
    ensures e in run.states[j].events && Evolves(run.states[i].events[e], run.states[j].events[e])
    decreases j
  {
    if i < j {
      hide Apply, EffectOn, Inv;
      EventsEvolve(run, i, j - 1, e);
      RunInv(run, j - 1);
      assert IsStep(run, j - 1);
      var s, a := run.states[j - 1], run.actions[j - 1];
      StepIsItsEffect(run.mode, run.cfg, s, a, e);
      EffectEvolves(run.cfg, s.events[e], EffectOn(run.mode, run.cfg, s, a, e), s.now);
      EvolvesTransitive(run.states[i].events[e], run.states[j - 1].events[e], run.states[j].events[e]);
    }
  }

  // ---- Deaths and retries, counted on the run itself ----

  /** Step `k` is a death of a relay with an attempt open on `e`. */
  ghost predicate DeathOn(run: Run, k: nat, e: EventId)
    requires k < |run.actions| < |run.states|
  {
    var s, a := run.states[k], run.actions[k];
    a.Die? && a.relay in s.relays && s.relays[a.relay].visit.Some? && s.relays[a.relay].visit.value.id == e
  }

  /** It falls between saving the dead-lettered status and creating the dead-letter row. */
  ghost predicate DeathBetweenWrites(run: Run, k: nat, e: EventId)
    requires k < |run.actions| < |run.states|
  {
    DeathOn(run, k, e) && run.states[k].relays[run.actions[k].relay].visit.value.phase.DeadMarked?
  }

  /** It falls while `c` is being handled, with its row started. */
  ghost predicate DeathWhileStarted(run: Run, k: nat, e: EventId, c: string)
    requires k < |run.actions| < |run.states|
  {
    && DeathOn(run, k, e) && e in run.states[k].events
    && var visit := run.states[k].relays[run.actions[k].relay].visit.value;
       LeavesStarted(run.cfg, run.states[k].events[e], visit.phase, c)
  }

  ghost function DeathsOn(run: Run, k: nat, e: EventId): nat
    requires k < |run.states| == |run.actions| + 1
  {
    if k == 0 then 0 else DeathsOn(run, k - 1, e) + Bit(DeathOn(run, k - 1, e))
  }

  ghost predicate AwaitsRetry(s: Sys, e: EventId) {
    e in s.events && s.events[e].row.status == FailedRetryable
  }

  /** Step `k` makes `e` failed retryable. */
  ghost predicate EntersRetry(run: Run, k: nat, e: EventId)
    requires k < |run.actions| < |run.states|
  {
    !AwaitsRetry(run.states[k], e) && AwaitsRetry(run.states[k + 1], e)
  }

  ghost function RetryEntries(run: Run, k: nat, e: EventId): nat
    requires k < |run.states| == |run.actions| + 1
  {
    if k == 0 then 0 else RetryEntries(run, k - 1, e) + Bit(EntersRetry(run, k - 1, e))
  }

  lemma HistoryStep(run: Run, k: nat, e: EventId)
    requires IsRun(run) && k < |run.actions| && e in run.states[k].events
    ensures e in run.states[k + 1].events
    ensures var h, h' := run.states[k].events[e].history, run.states[k + 1].events[e].history;
            && h'.interruptions == h.interruptions + Bit(DeathOn(run, k, e))
            && h'.lostRecord == (h.lostRecord || DeathBetweenWrites(run, k, e))
            && (forall c :: c in h'.stuck <==> c in h.stuck || DeathWhileStarted(run, k, e, c))
            && h'.retries == h.retries + Bit(EntersRetry(run, k, e))
  {
    hide Inv, Apply, EffectOk, After;
    RunInv(run, k);
    var s, a := run.states[k], run.actions[k];
    assert IsStep(run, k);
    StepIsItsEffect(run.mode, run.cfg, s, a, e);
    EffectHistory(run.cfg, s.events[e], EffectOn(run.mode, run.cfg, s, a, e), s.now);
  }

  /** An event that does not exist yet has no history, and writing it gives it none. */
  lemma NoHistoryBeforeWriting(run: Run, k: nat, e: EventId)
    requires IsRun(run) && k < |run.actions| && e !in run.states[k].events
    ensures !DeathOn(run, k, e) && !EntersRetry(run, k, e)
    ensures e in run.states[k + 1].events ==> run.states[k + 1].events[e].history == History(0, 0, false, {}, [])
  {
    RunInv(run, k);
    var s, a := run.states[k], run.actions[k];
    assert IsStep(run, k);
    if a.Die? {
      assert RelayOk(run.mode, run.cfg, s, s.relays[a.relay]);
    }
  }

  lemma {:induction false} HistoryCounts(run: Run, k: nat, e: EventId)
    requires IsRun(run) && k < |run.states|
    ensures e in run.states[k].events ==>
              var h := run.states[k].events[e].history;
              && h.interruptions == DeathsOn(run, k, e)
              && h.retries == RetryEntries(run, k, e)
              && (h.lostRecord <==> exists i :: 0 <= i < k && DeathBetweenWrites(run, i, e))
              && (forall c :: c in h.stuck <==> exists i :: 0 <= i < k && DeathWhileStarted(run, i, e, c))
    ensures e !in run.states[k].events ==>
              DeathsOn(run, k, e) == 0 && RetryEntries(run, k, e) == 0
              && (forall i :: 0 <= i < k ==> !DeathBetweenWrites(run, i, e))
              && (forall i, c :: 0 <= i < k ==> !DeathWhileStarted(run, i, e, c))
  {
    if 0 < k {
      HistoryCounts(run, k - 1, e);
      if e in run.states[k - 1].events {
        HistoryStep(run, k - 1, e);
      } else {
        NoHistoryBeforeWriting(run, k - 1, e);
      }
    }
  }

  // ---- The main results ----

  lemma EventFacts(run: Run, k: nat, e: EventId)
    requires IsRun(run) && k < |run.states| && e in run.states[k].events
    ensures Resting(run.cfg, run.states[k].events[e]) ||
            exists r :: r in run.states[k].relays && run.states[k].relays[r].visit.Some?
                        && var v := run.states[k].relays[r].visit.value;
                           v.id == e && Active(run.cfg, run.states[k].events[e], v.number, v.phase, run.states[k].now)
    ensures !Visited(run.states[k], e) ==> Resting(run.cfg, run.states[k].events[e])
  {
    hide Resting, Active;
    RunInv(run, k);
    var s := run.states[k];
    if Visited(s, e) {
      var r :| r in s.relays && s.relays[r].visit.Some? && s.relays[r].visit.value.id == e;
      assert RelayOk(run.mode, run.cfg, s, s.relays[r]);
    }
  }

  /** Attempts are numbered 1, 2, ... without gaps, in every state. */
  lemma AttemptsAreNumbered(run: Run, k: nat, e: EventId)
    requires IsRun(run) && k < |run.states| && e in run.states[k].events
    ensures forall i :: 0 <= i < |run.states[k].events[e].attempts| ==>
              run.states[k].events[e].attempts[i].number == i + 1
  {
    EventFacts(run, k, e);
  }

  /**
   Bounded retry: an event becomes failed retryable at most twice, and is attempted
   at most three times plus once for every death that interrupted an attempt on it.
   */
  lemma RetriesAreBounded(run: Run, k: nat, e: EventId)
    requires IsRun(run) && k < |run.states| && e in run.states[k].events
    ensures RetryEntries(run, k, e) <= 2
    ensures |run.states[k].events[e].attempts| <= 3 + DeathsOn(run, k, e)
  {
    EventFacts(run, k, e);
    HistoryCounts(run, k, e);
  }

  /**
   The attempts run out: between visits, an event with three attempts, not counting those
   a death interrupted, has reached a final status.
   */
  lemma AttemptsRunOut(run: Run, k: nat, e: EventId)
    requires IsRun(run) && k < |run.states| && e in run.states[k].events && !Visited(run.states[k], e)
    ensures var ev := run.states[k].events[e];
            && (!Terminal(ev) ==> |ev.attempts| == RetryEntries(run, k, e) + DeathsOn(run, k, e))
            && (3 + DeathsOn(run, k, e) <= |ev.attempts| ==> Terminal(ev))
  {
    RunInv(run, k);
    HistoryCounts(run, k, e);
    RetriesAreBounded(run, k, e);
  }

  /** The attempts an event has left. */
  ghost function AttemptsLeft(run: Run, k: nat, e: EventId): int
    requires k < |run.states| == |run.actions| + 1 && e in run.states[k].events
  {
    3 + DeathsOn(run, k, e) - |run.states[k].events[e].attempts|
  }

  /** A visit of `e` begins in step `k`. */
  ghost predicate VisitBegins(run: Run, k: nat, e: EventId)
    requires k < |run.actions| < |run.states|
  {
    var s, a := run.states[k], run.actions[k];
    a.Begin? && a.relay in s.relays && s.relays[a.relay].rest != [] && s.relays[a.relay].rest[0] == e
  }

  /** They are never negative, fall by one with every visit, and only a death in a visit gives one back. */
  lemma VisitsUseUpAttempts(run: Run, k: nat, e: EventId)
    requires IsRun(run) && k < |run.actions| && e in run.states[k].events
    ensures e in run.states[k + 1].events
    ensures 0 <= AttemptsLeft(run, k + 1, e)
            == AttemptsLeft(run, k, e) - Bit(VisitBegins(run, k, e)) + Bit(DeathOn(run, k, e))
  {
    hide Inv, Apply;
    RunInv(run, k);
    assert IsStep(run, k);
    var s, a := run.states[k], run.actions[k];
    StepIsItsEffect(run.mode, run.cfg, s, a, e);
    EffectAttempts(run.cfg, s.events[e], EffectOn(run.mode, run.cfg, s, a, e), s.now);
    RetriesAreBounded(run, k + 1, e);
  }

  /**
   Dead letters.  A row in the dead-letter table belongs to a dead-lettered event and
   counts its attempts, and an event has at most one.  Once the relay is done with a
   dead-lettered event it has one, except exactly when a relay died between the two
   writes.
   */
  lemma DeadLettersMatchEvents(run: Run, k: nat, e: EventId)
    requires IsRun(run) && k < |run.states| && e in run.states[k].events
    ensures var ev := run.states[k].events[e];
            && |ev.deadLetters| <= 1
            && (ev.deadLetters != [] ==>
                  ev.row.status == DeadLettered && ev.deadLetters[0].failedAfterAttempts == |ev.attempts|)
            && (ev.row.status == DeadLettered && !Visited(run.states[k], e) ==>
                  (ev.deadLetters == [] <==> exists i :: 0 <= i < k && DeathBetweenWrites(run, i, e)))
  {
    hide Accounted, StartsExplained, SkippedUpTo, Numbered;
    EventFacts(run, k, e);
    HistoryCounts(run, k, e);
  }

  /**
   Completion, and exactly when.  A consumer registered for a dispatched event is
   processed, its handler having returned, unless a relay died on the event while that
   consumer was being handled with its row started; then the row still is, and every
   later visit passed over it.  If no attempt on the event was interrupted, each handler
   returned normally exactly once.
   */
  lemma DispatchedMeansDelivered(run: Run, k: nat, e: EventId, c: string)
    requires IsRun(run) && k < |run.states| && e in run.states[k].events
    requires run.states[k].events[e].row.status == Dispatched
    requires c in HandlersOf(run.cfg, run.states[k].events[e])
    ensures var ev := run.states[k].events[e];
            && (StatusOf(ev, c) == Some(Processed) <==> !exists i :: 0 <= i < k && DeathWhileStarted(run, i, e, c))
            && (StatusOf(ev, c) == Some(Processed) ==> 1 <= Returns(ev.history.calls, c))
            && (StatusOf(ev, c) != Some(Processed) ==> StatusOf(ev, c) == Some(Started))
            && (DeathsOn(run, k, e) == 0 ==>
                  StatusOf(ev, c) == Some(Processed) && Returns(ev.history.calls, c) == 1)
  {
    EventFacts(run, k, e);
    HistoryCounts(run, k, e);
    var ev := run.states[k].events[e];
    var hs := HandlersOf(run.cfg, ev);
    var j :| 0 <= j < |hs| && hs[j] == c;
    assert SkippedUpTo(run.cfg, ev, |hs|);
    assert Authorized(run.cfg, ev, hs[j]) && ShouldSkip(StatusOf(ev, hs[j]));
  }

  /**
   A row that a death left started is never taken up again: in every later state it is
   still started and its handler is not running.
   */
  lemma StartedIsStuck(run: Run, i: nat, k: nat, e: EventId, c: string)
    requires IsRun(run) && i < k < |run.states| && DeathWhileStarted(run, i, e, c)
    requires Authorized(run.cfg, run.states[i].events[e], c)
    ensures e in run.states[k].events && StatusOf(run.states[k].events[e], c) == Some(Started)
    ensures forall r :: !IsCalling(run, k, r, e, c)
  {
    hide Step, Apply;
    EventsEvolve(run, i, k, e);
    EventFacts(run, k, e);
    HistoryCounts(run, k, e);
    assert c in run.states[k].events[e].history.stuck;
    forall r
      ensures !IsCalling(run, k, r, e, c)
    {
      if IsCalling(run, k, r, e, c) {
        RunningIsNotStuck(run, k, r, e, c);
      }
    }
  }

  lemma RunningIsNotStuck(run: Run, k: nat, r: RelayId, e: EventId, c: string)
    requires IsRun(run) && k < |run.states| && IsCalling(run, k, r, e, c)
    ensures !(c in run.states[k].events[e].history.stuck && Authorized(run.cfg, run.states[k].events[e], c))
  {
    RunInv(run, k);
    assert RelayOk(run.mode, run.cfg, run.states[k], run.states[k].relays[r]);
  }

  /** Every extra delivery is paid for by a death: a handler returns at most once more than that. */
  lemma DeliveriesAreBounded(run: Run, k: nat, e: EventId, c: string)
    requires IsRun(run) && k < |run.states| && e in run.states[k].events
    ensures Returns(run.states[k].events[e].history.calls, c) <= 1 + DeathsOn(run, k, e)
  {
    EventFacts(run, k, e);
    HistoryCounts(run, k, e);
  }

  /** Relay `r` has handler `c` of event `e` running. */
  ghost predicate IsCalling(run: Run, k: nat, r: RelayId, e: EventId, c: string)
    requires k < |run.states|
  {
    var s := run.states[k];
    && r in s.relays && s.relays[r].visit.Some? && e in s.events
    && var v := s.relays[r].visit.value;
    && v.id == e && v.phase.Calling? && v.phase.i < |HandlersOf(run.cfg, s.events[e])|
    && HandlersOf(run.cfg, s.events[e])[v.phase.i] == c
  }

  /** In no state is a handler running whose pair is processed, however the call will end. */
  lemma RunningIsNotProcessed(run: Run, k: nat, r: RelayId, e: EventId, c: string)
    requires IsRun(run) && k < |run.states| && IsCalling(run, k, r, e, c)
    ensures StatusOf(run.states[k].events[e], c) != Some(Processed)
  {
    RunInv(run, k);
    assert RelayOk(run.mode, run.cfg, run.states[k], run.states[k].relays[r]);
  }

  /**
   Once `c` is processed it stays so, its handler never runs again, and no call of it is
   logged any more, whether it returns, raises, escapes or is cut off by a death.
   */
  lemma ProcessedIsNotCalledAgain(run: Run, i: nat, j: nat, e: EventId, c: string)
    requires IsRun(run) && i <= j < |run.states| && e in run.states[i].events
    requires StatusOf(run.states[i].events[e], c) == Some(Processed)
    ensures e in run.states[j].events && StatusOf(run.states[j].events[e], c) == Some(Processed)
    ensures forall r :: !IsCalling(run, j, r, e, c)
    ensures var a, b := run.states[i].events[e].history.calls, run.states[j].events[e].history.calls;
            a <= b && (forall k :: |a| <= k < |b| ==> b[k].consumer != c) && Returns(b, c) == Returns(a, c)
  {
    EventsEvolve(run, i, j, e);
    forall r
      ensures !IsCalling(run, j, r, e, c)
    {
      if IsCalling(run, j, r, e, c) {
        RunningIsNotProcessed(run, j, r, e, c);
      }
    }
    var a, b := run.states[i].events[e].history.calls, run.states[j].events[e].history.calls;
    NoNewReturns(a, b, c);
  }

  lemma {:induction false} NoNewReturns(a: seq<Call>, b: seq<Call>, c: string)
    requires a <= b && forall k :: |a| <= k < |b| ==> b[k].consumer != c
    ensures Returns(b, c) == Returns(a, c)
    decreases |b|
  {
    if |a| < |b| {
      NoNewReturns(a, b[..|b| - 1], c);
    } else {
      assert a == b;
    }
  }

  // ---- Back-off ----

  lemma {:induction false} TimeAdvances(run: Run, i: nat, j: nat)
    requires IsRun(run) && i <= j < |run.states|
    ensures run.states[i].now <= run.states[j].now
    decreases j
  {
    if i < j {
      TimeAdvances(run, i, j - 1);
      assert IsStep(run, j - 1);
    }
  }

  lemma EntryIsScheduled(run: Run, k: nat, e: EventId)
    requires IsRun(run) && k < |run.actions| && EntersRetry(run, k, e)
    ensures var ev, n := run.states[k + 1].events[e], |run.states[k + 1].events[e].attempts|;
            1 <= n <= 2 && ev.row.availableAt == run.states[k].now + RetryDelay(n)
  {
    RunInv(run, k);
    var s, a := run.states[k], run.actions[k];
    assert IsStep(run, k);
    if e in s.events {
      StepIsItsEffect(run.mode, run.cfg, s, a, e);
      EffectBackoff(run.cfg, s.events[e], EffectOn(run.mode, run.cfg, s, a, e), s.now);
    }
  }

  /**
   After the retryable failure of attempt `n`, nothing at all happens to the event for
   min(60 * 2^(n-1), 480) seconds: no relay locks it, no attempt starts, no row changes.
   */
  lemma {:induction false} BackoffIsRespected(run: Run, i: nat, j: nat, e: EventId)
    requires IsRun(run) && i < j < |run.states| && EntersRetry(run, i, e)
    ensures var ev, n := run.states[i + 1].events[e], |run.states[i + 1].events[e].attempts|;
            && 1 <= n <= 2
            && (run.states[j].now < run.states[i].now + RetryDelay(n) ==>
                  e in run.states[j].events && run.states[j].events[e] == ev)
    decreases j
  {
    EntryIsScheduled(run, i, e);
    var ready := run.states[i].now + RetryDelay(|run.states[i + 1].events[e].attempts|);
    if i + 1 < j && run.states[j].now < ready {
      TimeAdvances(run, j - 1, j);
      BackoffIsRespected(run, i, j - 1, e);
      RunInv(run, j - 1);
      assert IsStep(run, j - 1);
      var s, a := run.states[j - 1], run.actions[j - 1];
      StepIsItsEffect(run.mode, run.cfg, s, a, e);
      EffectBackoff(run.cfg, s.events[e], EffectOn(run.mode, run.cfg, s, a, e), s.now);
    }
  }

  // ---- The gap in the dead-letter table is real ----

  /** A run that keeps its last state and takes one step more. */
  ghost function Extend(run: Run, a: Action): Run
    requires run.states != [] && Enabled(run.mode, run.cfg, run.states[|run.states| - 1], a)
  {
    run.(actions := run.actions + [a],
         states := run.states + [Apply(run.mode, run.cfg, run.states[|run.states| - 1], a)])
  }

  lemma ExtendIsRun(run: Run, a: Action)
    requires IsRun(run) && Enabled(run.mode, run.cfg, run.states[|run.states| - 1], a)
    ensures IsRun(Extend(run, a))
  {
    var run' := Extend(run, a);
    forall k | 0 <= k < |run'.actions|
      ensures IsStep(run', k)
    {
      assert k < |run.actions| ==> IsStep(run, k);
    }
  }

  lemma AdvanceOnce(run: Run) returns (run': Run)
    requires IsRun(run)
    requires var s := run.states[|run.states| - 1];
             0 in s.relays && s.relays[0].visit.Some?
    ensures IsRun(run') && run'.cfg == run.cfg && run'.mode == run.mode
    ensures var s, s' := run.states[|run.states| - 1], run'.states[|run'.states| - 1];
            var v := s.relays[0].visit.value;
            && v.id in s.events && Fits(run.cfg, s.events[v.id], v.number, v.phase)
            && Enabled(run.mode, run.cfg, s, Advance(0, ReturnsNormally))
            && s' == Apply(run.mode, run.cfg, s, Advance(0, ReturnsNormally))
  {
    hide Step, Accounted, StartsExplained, SkippedUpTo, Numbered;
    RunInv(run, |run.states| - 1);
    var s := run.states[|run.states| - 1];
    assert RelayOk(run.mode, run.cfg, s, s.relays[0]);
    run' := Extend(run, Advance(0, ReturnsNormally));
    ExtendIsRun(run, Advance(0, ReturnsNormally));
  }

  lemma SelectsTheOnlyOne(c: Candidate, now: int)
    requires Eligible(c.row, now, LOCK_TIMEOUT_SECONDS)
    ensures Selection([c], 1, now) == [c]
  {
    assert Window([c], 1) == [c];
    assert [c][..0] == [] && [c][1..] == [] && [c][..1] == [c];
    assert Ready([c], now, LOCK_TIMEOUT_SECONDS) == [c];
    assert Sort([c], DispatchLe) == [c];
  }

  /** One event type with one registered consumer, which is on the allowlist or not. */
  function OneHandler(allowed: bool): Config {
    Config(map["a.b" := ["audit"]], if allowed then map["a.b" := {"audit"}] else map[])
  }

  lemma WrittenOnce(mode: Concurrency, allowed: bool) returns (run: Run)
    ensures IsRun(run) && run.mode == mode && run.cfg == OneHandler(allowed)
    ensures run.states[|run.states| - 1] ==
            Sys(0, map[0 := NewEvent(Write(0, "a.b", "key", Normal, 0), 0)], map[])
  {
    var write := Write(0, "a.b", "key", Normal, 0);
    run := Run(mode, OneHandler(allowed), [Sys(0, map[], map[])], []);
    ExtendIsRun(run, write);
    run := Extend(run, write);
  }

  /** Locking the only event there is. */
  function LockAlone(s: Sys, r: RelayId): Action
    requires 0 in s.events
  {
    Lock(r, "relay", 1, [Candidate(0, s.events[0].row)], [0])
  }

  lemma LockAloneIsEnabled(mode: Concurrency, cfg: Config, s: Sys, r: RelayId)
    requires s.events.Keys == {0} && Eligible(s.events[0].row, s.now, LOCK_TIMEOUT_SECONDS)
    requires r in s.relays ==> !Busy(s.relays[r])
    requires mode == OneRelay ==> forall q :: q in s.relays ==> !Busy(s.relays[q])
    ensures Enabled(mode, cfg, s, LockAlone(s, r))
  {
    var c := Candidate(0, s.events[0].row);
    var lock := LockAlone(s, r);
    SelectsTheOnlyOne(c, s.now);
    assert c in Selection(lock.due, lock.batchSize, s.now);
    assert IsDueListing(s, [c]) by {
      assert [c][0].id == 0;
    }
    assert IsBatch(s, lock) by {
      assert lock.queue[0] == 0;
    }
  }

  /** Relay 0 locks the only event there is. */
  lemma LockedAlone(run: Run) returns (run': Run)
    requires IsRun(run)
    requires var s := run.states[|run.states| - 1];
             && s.events.Keys == {0} && Eligible(s.events[0].row, s.now, LOCK_TIMEOUT_SECONDS)
             && forall q :: q in s.relays ==> !Busy(s.relays[q])
    ensures IsRun(run') && run'.cfg == run.cfg && run'.mode == run.mode
    ensures var s, s' := run.states[|run.states| - 1], run'.states[|run'.states| - 1];
            && s'.events == map[0 := LockRow(s.events[0], s.now, "relay")] && s'.now == s.now
            && s'.relays == s.relays[0 := Relay("relay", s.now, None, [0])]
  {
    var s := run.states[|run.states| - 1];
    LockAloneIsEnabled(run.mode, run.cfg, s, 0);
    ExtendIsRun(run, LockAlone(s, 0));
    run' := Extend(run, LockAlone(s, 0));
  }

  /** Relay 0 takes it up. */
  lemma BegunAlone(run: Run) returns (run': Run)
    requires IsRun(run) && run.mode == OneRelay
    requires var s := run.states[|run.states| - 1];
             && s.events.Keys == {0} && 0 in s.relays && s.relays[0].visit == None && s.relays[0].rest == [0]
    ensures IsRun(run') && run'.cfg == run.cfg && run'.mode == OneRelay
    ensures var s, s' := run.states[|run.states| - 1], run'.states[|run'.states| - 1];
            var ev := OpenAttempt(s.events[0], s.relays[0].name);
            && s'.events == map[0 := ev] && s'.now == s.now
            && s'.relays == s.relays[0 := s.relays[0].(visit := Some(Visit(0, |ev.attempts|, Examine(0))), rest := [])]
  {
    var s := run.states[|run.states| - 1];
    assert s.relays[0].rest[1..] == [];
    ExtendIsRun(run, Begin(0));
    run' := Extend(run, Begin(0));
    assert run'.states[|run'.states| - 1].events == map[0 := OpenAttempt(s.events[0], s.relays[0].name)];
  }

  /** The relay has saved the event as dead lettered and is about to create the record. */
  lemma MarkedOnce() returns (run: Run)
    ensures IsRun(run)
    ensures var s := run.states[|run.states| - 1];
            && 0 in s.events && s.events[0].row.status == DeadLettered && s.events[0].deadLetters == []
            && s.relays.Keys == {0} && s.relays[0].visit.Some? && s.relays[0].visit.value.id == 0
  {
    run := WrittenOnce(OneRelay, false);
    run := LockedAlone(run);
    run := BegunAlone(run);
    run := AdvanceOnce(run);
    run := AdvanceOnce(run);
    run := AdvanceOnce(run);
    run := AdvanceOnce(run);
  }

  /** The one-to-one match can fail: a run that ends with a dead-lettered event nobody works on and no record of it. */
  lemma DeadLetterCanBeLost() returns (run: Run)
    ensures IsRun(run)
    ensures var s := run.states[|run.states| - 1];
            && 0 in s.events && s.events[0].row.status == DeadLettered && s.events[0].deadLetters == []
            && (forall r :: r in s.relays ==> !Busy(s.relays[r]))
  {
    run := MarkedOnce();
    ExtendIsRun(run, Die(0));
    run := Extend(run, Die(0));
  }

  /** The relay dies as the handler starts, and the lock runs out. */
  lemma LeftStartedOnce() returns (run: Run)
    ensures IsRun(run) && run.mode == OneRelay && run.cfg == OneHandler(true)
    ensures var s := run.states[|run.states| - 1];
            && s.events.Keys == {0} && s.events[0].consumers == map["audit" := Started]
            && s.events[0].history.calls == [] && s.events[0].row.eventType == "a.b"
            && Eligible(s.events[0].row, s.now, LOCK_TIMEOUT_SECONDS)
            && forall q :: q in s.relays ==> !Busy(s.relays[q])
  {
    run := WrittenOnce(OneRelay, true);
    run := LockedAlone(run);
    run := BegunAlone(run);
    run := AdvanceOnce(run);
    ExtendIsRun(run, Die(0));
    run := Extend(run, Die(0));
    ExtendIsRun(run, Tick(301));
    run := Extend(run, Tick(301));
  }

  /** A run that ends with a dispatched event whose only handler never came to an end, and nobody works on it. */
  lemma DeliveryCanBeLost() returns (run: Run)
    ensures IsRun(run)
    ensures var s := run.states[|run.states| - 1];
            && 0 in s.events && s.events[0].row.status == Dispatched
            && HandlersOf(run.cfg, s.events[0]) == ["audit"] && s.events[0].history.calls == []
            && (forall r :: r in s.relays ==> !Busy(s.relays[r]))
  {
    run := LeftStartedOnce();
    run := LockedAlone(run);
    run := BegunAlone(run);
    run := AdvanceOnce(run);
    run := AdvanceOnce(run);
    run := AdvanceOnce(run);
  }

  // ---- Several relays ----

  /** Two rows, the first freshly locked: a batch of one is the second. */
  lemma SelectsTheOther(held: Candidate, c: Candidate, now: int)
    requires FreshlyLocked(held.row, now, LOCK_TIMEOUT_SECONDS) && Eligible(c.row, now, LOCK_TIMEOUT_SECONDS)
    ensures Selection([held, c], 1, now) == [c]
  {
    var due := [held, c];
    assert Window(due, 1) == due;
    assert due[..1] == [held] && [held][..0] == [] && [c][1..] == [] && [c][..1] == [c];
    assert Ready([held], now, LOCK_TIMEOUT_SECONDS) == [];
    assert Ready(due, now, LOCK_TIMEOUT_SECONDS) == [c];
    assert Sort([c], DispatchLe) == [c];
  }

  /** Relay 0 has locked event 0, and then event 1 is written. */
  lemma OneLockedOneWritten() returns (run: Run)
    ensures IsRun(run) && run.mode == Leases
    ensures var s := run.states[|run.states| - 1];
            var fst := NewEvent(Write(0, "a.b", "key", Normal, 0), 0);
            var snd := NewEvent(Write(1, "a.b", "other", Normal, 0), 0);
            s == Sys(0, map[0 := LockRow(fst, 0, "relay"), 1 := snd], map[0 := Relay("relay", 0, None, [0])])
  {
    run := WrittenOnce(Leases, true);
    run := LockedAlone(run);
    var write := Write(1, "a.b", "other", Normal, 0);
    assert "key" != "other";
    ExtendIsRun(run, write);
    run := Extend(run, write);
  }

  /** Two relays can be busy at the same time, each with an event of its own. */
  lemma TwoRelaysCanBeBusy() returns (run: Run)
    ensures IsRun(run) && run.mode == Leases
    ensures var s := run.states[|run.states| - 1];
            0 in s.relays && 1 in s.relays && Holds(s.relays[0], 0) && Holds(s.relays[1], 1)
  {
    run := OneLockedOneWritten();
    var s := run.states[|run.states| - 1];
    var due := [Candidate(0, s.events[0].row), Candidate(1, s.events[1].row)];
    var lock := Lock(1, "second", 1, due, [1]);
    SelectsTheOther(due[0], due[1], 0);
    assert IsDueListing(s, due) by {
      assert due[0].id == 0 && due[1].id == 1;
    }
    assert IsBatch(s, lock) by {
      assert due[1] in Selection(due, 1, 0) && lock.queue[0] == 1;
    }
    ExtendIsRun(run, lock);
    run := Extend(run, lock);
  }

  /** Relay 1 may lock the only event there is, and then both relays hold it. */
  ghost predicate BothCanHold(cfg: Config, s: Sys)
    requires 0 in s.events
  {
    && Enabled(Leases, cfg, s, LockAlone(s, 1))
    && var both := Apply(Leases, cfg, s, LockAlone(s, 1)).relays;
       0 in both && 1 in both && Holds(both[0], 0) && Holds(both[1], 0)
  }

  /**
   Without the lease hypothesis the safety is lost: one second after the lease of a run
   has ended, another relay may lock what the first still has to process.
   */
  lemma ExpiredLeasesOverlap() returns (run: Run)
    ensures IsRun(run) && run.mode == Leases
    ensures var s := run.states[|run.states| - 1];
            var late := s.(now := s.now + LOCK_TIMEOUT_SECONDS + 1);
            0 in s.relays && 0 in late.events && Holds(s.relays[0], 0) && BothCanHold(run.cfg, late)
  {
    run := WrittenOnce(Leases, true);
    run := LockedAlone(run);
    var s := run.states[|run.states| - 1];
    var late := s.(now := s.now + LOCK_TIMEOUT_SECONDS + 1);
    LockAloneIsEnabled(Leases, run.cfg, late, 1);
  }
}
