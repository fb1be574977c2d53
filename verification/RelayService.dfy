/**
 The relay as the program writes it: a service over the outbox tables whose dispatch
 loop makes the writes of `Outbox.Step` one after the other.
 A handler either comes to an outcome the loop catches or lets an exception escape.
 */
module RelayService {
  import opened Options
  import opened EventModel
  import opened Retry
  import opened Outbox
  import opened Planner
  import opened Sorting
  import opened Relays
  import opened RelayRuns

  datatype HandlerResult = Comes(outcome: Outcome) | Escapes

  /** What handlers do in one visit, by consumer name. */
  type Script = string -> HandlerResult

  datatype Ended = Ended(event: Event, escaped: bool)

  // ---- One visit as the iteration of single writes ----

  /** Falls with every write of a visit. */
  function Remaining(cfg: Config, ev: Event, ph: Phase): int {
    match ph
    case Examine(i) => 5 * (|HandlersOf(cfg, ev)| - i) + 20
    case Calling(i) => 5 * (|HandlersOf(cfg, ev)| - i) + 19
    case Returned(i) => 5 * (|HandlersOf(cfg, ev)| - i) + 18
    case Failing(c, _) => if c in ev.consumers then 11 else 12
    case FailureNoted(_) => 10
    case RetryNoted => 9
    case DeadMarked(_) => 8
    case DeadRecorded => 7
    case DispatchMarked => 6
  }

  /** A visit comes to an end: every write but the last leads to one that is nearer to it. */
  lemma StepDescends(cfg: Config, ev: Event, n: nat, ph: Phase, outcome: Outcome, now: int)
    requires Fits(cfg, ev, n, ph)
    ensures 0 <= Remaining(cfg, ev, ph)
    ensures var p := Step(cfg, ev, n, ph, outcome, now);
            p.next.Some? ==>
              Fits(cfg, p.event, n, p.next.value) && Remaining(cfg, p.event, p.next.value) < Remaining(cfg, ev, ph)
  {
    var p := Step(cfg, ev, n, ph, outcome, now);
    assert HandlersOf(cfg, p.event) == HandlersOf(cfg, ev);
  }

  function OutcomeFor(cfg: Config, ev: Event, n: nat, ph: Phase, script: Script): HandlerResult
    requires Fits(cfg, ev, n, ph)
  {
    if ph.Calling? then script(HandlersOf(cfg, ev)[ph.i]) else Comes(ReturnsNormally)
  }

  /** The rest of a visit from the write `ph` on. */
  function Drive(cfg: Config, ev: Event, n: nat, ph: Phase, script: Script, now: int): Ended
    requires Fits(cfg, ev, n, ph)
    decreases Remaining(cfg, ev, ph)
  {
    var result := OutcomeFor(cfg, ev, n, ph, script);
    if result.Escapes? then Ended(Interrupt(cfg, ev, ph), true)
    else
      StepDescends(cfg, ev, n, ph, result.outcome, now);
      var p := Step(cfg, ev, n, ph, result.outcome, now);
      match p.next
      case Some(ph') => Drive(cfg, p.event, n, ph', script, now)
      case None => Ended(p.event, false)
  }

  lemma DriveOneWrite(cfg: Config, ev: Event, n: nat, ph: Phase, script: Script, now: int)
    requires Fits(cfg, ev, n, ph) && OutcomeFor(cfg, ev, n, ph, script).Comes?
    ensures var p := Step(cfg, ev, n, ph, OutcomeFor(cfg, ev, n, ph, script).outcome, now);
            match p.next
            case Some(ph') => Fits(cfg, p.event, n, ph')
                              && Drive(cfg, ev, n, ph, script, now) == Drive(cfg, p.event, n, ph', script, now)
            case None => Drive(cfg, ev, n, ph, script, now) == Ended(p.event, false)
  {
    StepDescends(cfg, ev, n, ph, OutcomeFor(cfg, ev, n, ph, script).outcome, now);
  }

  lemma DriveEscapes(cfg: Config, ev: Event, n: nat, ph: Phase, script: Script, now: int)
    requires Fits(cfg, ev, n, ph) && OutcomeFor(cfg, ev, n, ph, script).Escapes?
    ensures Drive(cfg, ev, n, ph, script, now) == Ended(Interrupt(cfg, ev, ph), true)
  {
  }

  /** A whole visit leaves the event at rest. */
  lemma {:induction false} DriveRests(cfg: Config, ev: Event, n: nat, ph: Phase, script: Script, now: int)
    requires ValidConfig(cfg) && Active(cfg, ev, n, ph, now)
    ensures Resting(cfg, Drive(cfg, ev, n, ph, script, now).event)
    decreases Remaining(cfg, ev, ph)
  {
    var result := OutcomeFor(cfg, ev, n, ph, script);
    if result.Escapes? {
      InterruptRests(cfg, ev, n, ph, now);
    } else {
      StepDescends(cfg, ev, n, ph, result.outcome, now);
      StepKeepsInvariant(cfg, ev, n, ph, result.outcome, now);
      var p := Step(cfg, ev, n, ph, result.outcome, now);
      if p.next.Some? {
        DriveRests(cfg, p.event, n, p.next.value, script, now);
      }
    }
  }

  /**
   The sequential visit is one of the behaviours of the transition system: from any
   run in which relay `r` is at write `ph` of a visit, single writes (and a death if
   an exception escapes) lead to the state the visit ends in.
   */
  lemma {:induction false} DriveIsARun(run: Run, r: RelayId, script: Script) returns (run': Run)
    requires IsRun(run)
    requires var s := run.states[|run.states| - 1];
             && r in s.relays && s.relays[r].visit.Some? && s.relays[r].visit.value.id in s.events
             && var v := s.relays[r].visit.value; Fits(run.cfg, s.events[v.id], v.number, v.phase)
    ensures IsRun(run') && run'.mode == run.mode && run'.cfg == run.cfg && run.states <= run'.states
    ensures var s, s' := run.states[|run.states| - 1], run'.states[|run'.states| - 1];
            var v := s.relays[r].visit.value;
            var ended := Drive(run.cfg, s.events[v.id], v.number, v.phase, script, s.now);
            && s'.now == s.now && s'.events == s.events[v.id := ended.event]
            && s'.relays == s.relays[r := s.relays[r].(visit := None,
                                 rest := if ended.escaped then [] else s.relays[r].rest)]
    decreases var s := run.states[|run.states| - 1];
              var v := s.relays[r].visit.value;
              Remaining(run.cfg, s.events[v.id], v.phase)
  {
    hide Step, IsStep, Drive;
    var s := run.states[|run.states| - 1];
    var v := s.relays[r].visit.value;
    var ev := s.events[v.id];
    var result := OutcomeFor(run.cfg, ev, v.number, v.phase, script);
    if result.Escapes? {
      DriveEscapes(run.cfg, ev, v.number, v.phase, script, s.now);
      ExtendIsRun(run, Die(r));
      run' := Extend(run, Die(r));
    } else {
      DriveOneWrite(run.cfg, ev, v.number, v.phase, script, s.now);
      StepDescends(run.cfg, ev, v.number, v.phase, result.outcome, s.now);
      var a := Advance(r, result.outcome);
      ExtendIsRun(run, a);
      var next := Extend(run, a);
      var s1 := next.states[|next.states| - 1];
      var p := Step(run.cfg, ev, v.number, v.phase, result.outcome, s.now);
      assert s1.events == s.events[v.id := p.event];
      if p.next.Some? {
        run' := DriveIsARun(next, r, script);
      } else {
        run' := next;
      }
    }
  }

  /** Everything `dispatch_pending_events` does to one event it has locked. */
  function VisitOf(cfg: Config, ev: Event, name: string, script: Script, now: int): Ended {
    var begun := OpenAttempt(ev, name);
    Drive(cfg, begun, |begun.attempts|, Examine(0), script, now)
  }

  lemma VisitRests(cfg: Config, ev: Event, name: string, script: Script, now: int)
    requires ValidConfig(cfg) && Resting(cfg, ev) && ev.row.status == Locked
    ensures Resting(cfg, VisitOf(cfg, ev, name, script, now).event)
  {
    OpeningActivates(cfg, ev, name, now);
    DriveRests(cfg, OpenAttempt(ev, name), |ev.attempts| + 1, Examine(0), script, now);
  }

  datatype BatchResult = BatchResult(events: map<EventId, Event>, dispatched: nat, escaped: bool)

  /** The batch, one event after the other; an escaping exception abandons the rest. */
  function DispatchAll(cfg: Config, events: map<EventId, Event>, queue: seq<EventId>, name: string,
                       script: EventId -> Script, now: int): BatchResult
    requires forall e :: e in queue ==> e in events
  {
    if queue == [] then BatchResult(events, 0, false)
    else
      var init, last := queue[..|queue| - 1], queue[|queue| - 1];
      var before := DispatchAll(cfg, events, init, name, script, now);
      if before.escaped || last !in before.events then before
      else
        var ended := VisitOf(cfg, before.events[last], name, script(last), now);
        BatchResult(before.events[last := ended.event],
                    before.dispatched + Bit(ended.event.row.status == Dispatched), ended.escaped)
  }

  lemma {:induction false} DispatchAllDomain(cfg: Config, events: map<EventId, Event>, queue: seq<EventId>,
                                             name: string, script: EventId -> Script, now: int)
    requires forall e :: e in queue ==> e in events
    ensures var r := DispatchAll(cfg, events, queue, name, script, now);
            r.events.Keys == events.Keys && forall e :: e in events && e !in queue ==> r.events[e] == events[e]
  {
    if queue != [] {
      DispatchAllDomain(cfg, events, queue[..|queue| - 1], name, script, now);
    }
  }

  /** Relay `r` of the state has this batch to do and has not begun. */
  predicate HasBatch(s: Sys, r: RelayId, name: string, queue: seq<EventId>) {
    && r in s.relays && s.relays[r].name == name && s.relays[r].visit == None && s.relays[r].rest == queue
    && forall e :: e in queue ==> e in s.events
  }

  /** One more visit: the relay takes up the head of its batch and works on it to the end. */
  lemma VisitIsARun(run: Run, r: RelayId, script: Script) returns (run': Run)
    requires IsRun(run)
    requires var s := run.states[|run.states| - 1];
             r in s.relays && s.relays[r].visit == None && s.relays[r].rest != [] && s.relays[r].rest[0] in s.events
    ensures IsRun(run') && run'.mode == run.mode && run'.cfg == run.cfg && run.states <= run'.states
    ensures var s, s' := run.states[|run.states| - 1], run'.states[|run'.states| - 1];
            var relay := s.relays[r];
            var ended := VisitOf(run.cfg, s.events[relay.rest[0]], relay.name, script, s.now);
            && s'.now == s.now && s'.events == s.events[relay.rest[0] := ended.event]
            && s'.relays == s.relays[r := relay.(rest := if ended.escaped then [] else relay.rest[1..])]
  {
    hide Step, Drive;
    var s := run.states[|run.states| - 1];
    var relay := s.relays[r];
    var ev := OpenAttempt(s.events[relay.rest[0]], relay.name);
    ExtendIsRun(run, Begin(r));
    var begun := Extend(run, Begin(r));
    var s1 := begun.states[|begun.states| - 1];
    assert s1.events == s.events[relay.rest[0] := ev];
    assert s1.relays[r].visit == Some(Visit(relay.rest[0], |ev.attempts|, Examine(0)));
    run' := DriveIsARun(begun, r, script);
  }

  /** State `s'` is `s` after the first `k` visits of the batch; an escape leaves nothing to do. */
  ghost predicate IsAfterVisits(cfg: Config, s: Sys, s': Sys, r: RelayId, name: string, queue: seq<EventId>, k: nat,
                                script: EventId -> Script)
    requires HasBatch(s, r, name, queue) && k <= |queue|
  {
    var d := DispatchAll(cfg, s.events, queue[..k], name, script, s.now);
    && s'.now == s.now && s'.events == d.events
    && s'.relays == s.relays[r := s.relays[r].(rest := if d.escaped then [] else queue[k..])]
  }

  lemma NoVisits(cfg: Config, s: Sys, r: RelayId, name: string, queue: seq<EventId>, script: EventId -> Script)
    requires HasBatch(s, r, name, queue)
    ensures IsAfterVisits(cfg, s, s, r, name, queue, 0, script)
  {
    assert s.relays[r].(rest := queue[0..]) == s.relays[r];
  }

  lemma NextVisit(s: Sys, run: Run, r: RelayId, name: string, queue: seq<EventId>, k: nat, script: EventId -> Script)
    returns (run': Run)
    requires IsRun(run) && HasBatch(s, r, name, queue) && k < |queue|
    requires IsAfterVisits(run.cfg, s, run.states[|run.states| - 1], r, name, queue, k, script)
    ensures IsRun(run') && run'.mode == run.mode && run'.cfg == run.cfg && run.states <= run'.states
    ensures IsAfterVisits(run.cfg, s, run'.states[|run'.states| - 1], r, name, queue, k + 1, script)
  {
    hide VisitOf, IsStep, DispatchAll;
    if DispatchAll(run.cfg, s.events, queue[..k], name, script, s.now).escaped {
      assert queue[..k + 1][..k] == queue[..k];
      EscapeAbandons(run.cfg, s.events, queue[..k + 1], k, name, script, s.now);
      run' := run;
    } else {
      DispatchAllNext(run.cfg, s.events, queue, k, name, script, s.now);
      assert queue[k..][1..] == queue[k + 1..] && queue[k..][0] == queue[k];
      run' := VisitIsARun(run, r, script(queue[k]));
    }
  }

  /** The first `k` visits of a batch are a run. */
  lemma {:induction false} VisitsAreARun(run: Run, r: RelayId, name: string, queue: seq<EventId>, k: nat,
                                         script: EventId -> Script) returns (run': Run)
    requires IsRun(run) && HasBatch(run.states[|run.states| - 1], r, name, queue) && k <= |queue|
    ensures IsRun(run') && run'.mode == run.mode && run'.cfg == run.cfg && run.states <= run'.states
    ensures IsAfterVisits(run.cfg, run.states[|run.states| - 1], run'.states[|run'.states| - 1],
                          r, name, queue, k, script)
    decreases k
  {
    hide HasBatch, IsAfterVisits, IsStep;
    var s := run.states[|run.states| - 1];
    if k == 0 {
      run' := run;
      NoVisits(run.cfg, s, r, name, queue, script);
    } else {
      var before := VisitsAreARun(run, r, name, queue, k - 1, script);
      run' := NextVisit(s, before, r, name, queue, k - 1, script);
    }
  }

  /**
   A whole poll is one of the behaviours of the transition system: from any run in which
   no relay is busy, the locking step and the visits of the batch lead to the events that
   `DispatchPendingEvents` leaves, and no relay is busy again.
   */
  lemma PollIsARun(run: Run, r: RelayId, name: string, batchSize: int, due: seq<Candidate>, queue: seq<EventId>,
                   locked: map<EventId, Event>, script: EventId -> Script) returns (run': Run)
    requires IsRun(run) && run.mode == OneRelay
    requires var s := run.states[|run.states| - 1];
             && (forall q :: q in s.relays ==> !Busy(s.relays[q]))
             && IsDueListing(s, due)
             && LocksBatch(run.cfg, s.now, s.events, locked, name, batchSize, due, queue)
             && forall e :: e in queue ==> e in locked
    ensures IsRun(run') && run'.mode == OneRelay && run'.cfg == run.cfg && run.states <= run'.states
    ensures var s, s' := run.states[|run.states| - 1], run'.states[|run'.states| - 1];
            && s'.now == s.now
            && s'.events == DispatchAll(run.cfg, locked, queue, name, script, s.now).events
            && forall q :: q in s'.relays ==> !Busy(s'.relays[q])
  {
    var next := LockIsAStep(run, r, name, batchSize, due, queue, locked);
    run' := VisitsAreARun(next, r, name, queue, |queue|, script);
    assert queue[..|queue|] == queue && queue[|queue|..] == [];
  }

  lemma LockIsAStep(run: Run, r: RelayId, name: string, batchSize: int, due: seq<Candidate>, queue: seq<EventId>,
                    locked: map<EventId, Event>) returns (run': Run)
    requires IsRun(run) && run.mode == OneRelay
    requires var s := run.states[|run.states| - 1];
             && (forall q :: q in s.relays ==> !Busy(s.relays[q]))
             && IsDueListing(s, due)
             && LocksBatch(run.cfg, s.now, s.events, locked, name, batchSize, due, queue)
             && forall e :: e in queue ==> e in locked
    ensures IsRun(run') && run'.mode == OneRelay && run'.cfg == run.cfg && run.states <= run'.states
    ensures var s, s' := run.states[|run.states| - 1], run'.states[|run'.states| - 1];
            && s'.now == s.now && s'.events == locked && HasBatch(s', r, name, queue)
            && s'.relays == s.relays[r := Relay(name, s.now, None, queue)]
  {
    var s := run.states[|run.states| - 1];
    var lock := Lock(r, name, batchSize, due, queue);
    assert IsBatch(s, lock) by {
      assert IsBatch(Sys(s.now, s.events, map[]), Lock(0, name, batchSize, due, queue));
    }
    ExtendIsRun(run, lock);
    run' := Extend(run, lock);
  }

  predicate NoRepeats(queue: seq<EventId>) {
    forall i, j :: 0 <= i < j < |queue| ==> queue[i] != queue[j]
  }

  lemma AllButLast(queue: seq<EventId>)
    requires NoRepeats(queue) && queue != []
    ensures NoRepeats(queue[..|queue| - 1]) && queue[|queue| - 1] !in queue[..|queue| - 1]
    ensures forall e :: e in queue[..|queue| - 1] ==> e in queue
  {
  }

  /** A dispatched batch leaves every event at rest. */
  lemma {:induction false} DispatchAllRests(cfg: Config, events: map<EventId, Event>, queue: seq<EventId>,
                                            name: string, script: EventId -> Script, now: int)
    requires ValidConfig(cfg) && NoRepeats(queue)
    requires forall e :: e in events ==> Resting(cfg, events[e])
    requires forall e :: e in queue ==> e in events && events[e].row.status == Locked
    ensures var r := DispatchAll(cfg, events, queue, name, script, now);
            forall e :: e in r.events ==> Resting(cfg, r.events[e])
  {
    if queue != [] {
      hide Resting, VisitOf;
      var init, last := queue[..|queue| - 1], queue[|queue| - 1];
      AllButLast(queue);
      DispatchAllRests(cfg, events, init, name, script, now);
      DispatchAllDomain(cfg, events, init, name, script, now);
      VisitRests(cfg, events[last], name, script(last), now);
      var before := DispatchAll(cfg, events, init, name, script, now);
      OneMoreRests(cfg, before.events, last, VisitOf(cfg, events[last], name, script(last), now).event);
    }
  }

  lemma OneMoreRests(cfg: Config, events: map<EventId, Event>, e: EventId, ev: Event)
    requires Resting(cfg, ev) && forall d :: d in events ==> Resting(cfg, events[d])
    ensures var after := events[e := ev]; forall d :: d in after ==> Resting(cfg, after[d])
  {
    hide Resting;
  }

  function CountDispatched(events: map<EventId, Event>, queue: seq<EventId>): nat {
    if queue == [] then 0
    else
      var last := queue[|queue| - 1];
      CountDispatched(events, queue[..|queue| - 1]) + Bit(last in events && events[last].row.status == Dispatched)
  }

  lemma {:induction false} CountIgnoresOthers(before: map<EventId, Event>, after: map<EventId, Event>,
                                              queue: seq<EventId>)
    requires forall e :: e in queue ==> e in before && e in after && before[e] == after[e]
    ensures CountDispatched(before, queue) == CountDispatched(after, queue)
  {
    if queue != [] {
      CountIgnoresOthers(before, after, queue[..|queue| - 1]);
    }
  }

  /** The number returned is the number of batch events that are dispatched now, escape or not. */
  lemma {:induction false} DispatchCountIsExact(cfg: Config, events: map<EventId, Event>, queue: seq<EventId>,
                                                name: string, script: EventId -> Script, now: int)
    requires NoRepeats(queue) && forall e :: e in queue ==> e in events && events[e].row.status == Locked
    ensures var r := DispatchAll(cfg, events, queue, name, script, now);
            r.dispatched == CountDispatched(r.events, queue)
  {
    if queue != [] {
      hide VisitOf;
      var init, last := queue[..|queue| - 1], queue[|queue| - 1];
      AllButLast(queue);
      DispatchCountIsExact(cfg, events, init, name, script, now);
      DispatchAllDomain(cfg, events, init, name, script, now);
      var before, after := DispatchAll(cfg, events, init, name, script, now),
                           DispatchAll(cfg, events, queue, name, script, now);
      CountIgnoresOthers(before.events, after.events, init);
    }
  }

  // ---- What one call leaves ----

  /** How one turn of the consumer loop, or the whole loop, ended. */
  datatype Turn = GoOn | Raised(consumer: string, kind: Failure) | Escaped

  /** From `before`, about to make write `ph`, the loop has come to `after`, about to examine consumer `j`, or left. */
  ghost predicate LoopLeft(cfg: Config, before: Event, after: Event, n: nat, ph: Phase, j: nat, turn: Turn,
                           script: Script, now: int)
    requires Fits(cfg, before, n, ph)
  {
    var d := Drive(cfg, before, n, ph, script, now);
    match turn
    case Escaped => d == Ended(after, true)
    case GoOn =>
      && HandlersOf(cfg, after) == HandlersOf(cfg, before)
      && Fits(cfg, after, n, Examine(j)) && d == Drive(cfg, after, n, Examine(j), script, now)
    case Raised(c, kind) =>
      && HandlersOf(cfg, after) == HandlersOf(cfg, before)
      && Fits(cfg, after, n, Failing(c, kind)) && d == Drive(cfg, after, n, Failing(c, kind), script, now)
  }

  ghost predicate TurnTaken(cfg: Config, before: Event, after: Event, n: nat, i: nat, turn: Turn,
                            script: Script, now: int)
    requires Fits(cfg, before, n, Examine(i))
  {
    LoopLeft(cfg, before, after, n, Examine(i), i + 1, turn, script, now)
  }

  /** The tables after a `Lock` step of the transition system, taken while no relay is busy. */
  ghost predicate LocksBatch(cfg: Config, now: int, before: map<EventId, Event>, after: map<EventId, Event>,
                             name: string, batchSize: int, due: seq<Candidate>, queue: seq<EventId>)
  {
    var s, a := Sys(now, before, map[]), Lock(0, name, batchSize, due, queue);
    Enabled(OneRelay, cfg, s, a) && after == Apply(OneRelay, cfg, s, a).events
  }

  lemma LockingRests(cfg: Config, now: int, events: map<EventId, Event>, name: string, batchSize: int,
                     due: seq<Candidate>, queue: seq<EventId>)
    requires forall e :: e in events ==> Resting(cfg, events[e])
    requires IsDueListing(Sys(now, events, map[]), due)
    requires queue == OldestFirst(Selection(due, batchSize, now))
    ensures NoRepeats(queue)
    ensures forall e :: e in queue <==> exists c :: c in Selection(due, batchSize, now) && c.id == e
    ensures forall i, j :: 0 <= i < j < |queue| ==>
              queue[i] in events && queue[j] in events
              && events[queue[i]].row.occurredAt <= events[queue[j]].row.occurredAt
    ensures var after := map e | e in events :: if e in queue then LockRow(events[e], now, name) else events[e];
            && LocksBatch(cfg, now, events, after, name, batchSize, due, queue)
            && (forall e :: e in after ==> Resting(cfg, after[e]))
            && (forall e :: e in queue ==> e in after)
  {
    hide Selection, OldestFirst, Resting;
    var s, a := Sys(now, events, map[]), Lock(0, name, batchSize, due, queue);
    BatchOfSelection(s, a, Selection(due, batchSize, now));
    forall e | e in queue
      ensures e in events && Resting(cfg, LockRow(events[e], now, name))
    {
      SelectedIsEligible(s, a, e);
      LockRests(cfg, events[e], now, name);
    }
  }

  lemma DispatchAllNext(cfg: Config, events: map<EventId, Event>, queue: seq<EventId>, k: nat, name: string,
                        script: EventId -> Script, now: int)
    requires k < |queue| && forall e :: e in queue ==> e in events
    requires !DispatchAll(cfg, events, queue[..k], name, script, now).escaped
    ensures var before := DispatchAll(cfg, events, queue[..k], name, script, now);
            && queue[k] in before.events
            && var ended := VisitOf(cfg, before.events[queue[k]], name, script(queue[k]), now);
               DispatchAll(cfg, events, queue[..k + 1], name, script, now)
               == BatchResult(before.events[queue[k] := ended.event],
                              before.dispatched + Bit(ended.event.row.status == Dispatched), ended.escaped)
  {
    assert queue[..k + 1][..k] == queue[..k];
    DispatchAllDomain(cfg, events, queue[..k], name, script, now);
  }

  predicate OlderFirst(a: Candidate, b: Candidate) {
    a.row.occurredAt <= b.row.occurredAt
  }

  function Ids(cs: seq<Candidate>): seq<EventId> {
    seq(|cs|, i requires 0 <= i < |cs| => cs[i].id)
  }

  function OldestFirst(cs: seq<Candidate>): seq<EventId> {
    Ids(Sort(cs, OlderFirst))
  }

  lemma {:induction false} SortKeepsDistinctIds(s: seq<Candidate>)
    requires DistinctIds(s)
    ensures DistinctIds(Sort(s, OlderFirst))
  {
    if s != [] {
      SortKeepsDistinctIds(s[1..]);
      SortMembers(s[1..], OlderFirst);
      var t := Sort(s[1..], OlderFirst);
      forall i | 0 <= i < |t|
        ensures t[i].id != s[0].id
      {
        assert t[i] in t;
      }
      InsertKeepsDistinctIds(s[0], t);
    }
  }

  lemma {:induction false} InsertKeepsDistinctIds(x: Candidate, s: seq<Candidate>)
    requires DistinctIds(s)
    requires forall i :: 0 <= i < |s| ==> s[i].id != x.id
    ensures DistinctIds(Insert(x, s, OlderFirst))
  {
    if s != [] && !OlderFirst(x, s[0]) {
      InsertKeepsDistinctIds(x, s[1..]);
      InsertPermutes(x, s[1..], OlderFirst);
      var t := Insert(x, s[1..], OlderFirst);
      forall i | 0 <= i < |t|
        ensures t[i].id != s[0].id
      {
        assert t[i] in multiset(t);
        assert t[i] == x || t[i] in s[1..];
      }
    }
  }

  lemma SelectionIsStored(s: Sys, a: Action, c: Candidate)
    requires a.Lock? && IsDueListing(s, a.due) && c in Selection(a.due, a.batchSize, s.now)
    ensures Selected(a, s.now, c.id) && c.id in s.events && s.events[c.id].row == c.row
  {
    SelectionIsTheFrontOfTheWindow(a.due, a.batchSize, s.now);
    assert c in Window(a.due, SafeBatchSize(a.batchSize));
    var k :| 0 <= k < |a.due| && a.due[k] == c;
  }

  lemma BatchOfSelection(s: Sys, a: Action, selected: seq<Candidate>)
    requires a.Lock? && IsDueListing(s, a.due) && selected == Selection(a.due, a.batchSize, s.now)
    requires a.queue == OldestFirst(selected)
    ensures IsBatch(s, a)
  {
    var order := Sort(selected, OlderFirst);
    SortMembers(selected, OlderFirst);
    forall i | 0 <= i < |order|
      ensures Selected(a, s.now, order[i].id)
      ensures order[i].id in s.events && s.events[order[i].id].row == order[i].row
    {
      assert order[i] in order;
      SelectionIsStored(s, a, order[i]);
    }
    forall e | Selected(a, s.now, e)
      ensures e in a.queue
    {
      var c :| c in selected && c.id == e;
      var i :| 0 <= i < |order| && order[i] == c;
      assert a.queue[i] == e;
    }
    BatchOrder(a, order, s.now);
    forall i, j | 0 <= i < j < |a.queue|
      ensures a.queue[i] != a.queue[j]
      ensures s.events[a.queue[i]].row.occurredAt <= s.events[a.queue[j]].row.occurredAt
    {
      assert a.queue[i] == order[i].id && a.queue[j] == order[j].id;
    }
  }

  lemma BatchOrder(a: Action, order: seq<Candidate>, now: int)
    requires a.Lock? && DistinctIds(a.due) && order == Sort(Selection(a.due, a.batchSize, now), OlderFirst)
    ensures DistinctIds(order)
    ensures forall i, j :: 0 <= i < j < |order| ==> order[i].row.occurredAt <= order[j].row.occurredAt
  {
    var selected := Selection(a.due, a.batchSize, now);
    SelectionIsTheFrontOfTheWindow(a.due, a.batchSize, now);
    SortKeepsDistinctIds(selected);
    assert TotalPreorder(OlderFirst);
    SortSorts(selected, OlderFirst);
    assert forall i, j :: 0 <= i < j < |order| ==> OlderFirst(order[i], order[j]);
  }

  /** Recording the failed consumer is the first write after a caught exception. */
  lemma FailureWrites(cfg: Config, ev: Event, n: nat, c: string, kind: Failure, script: Script, now: int)
    requires Fits(cfg, ev, n, Failing(c, kind))
    ensures var ev' := SetConsumer(ev, c, Failed);
            && Fits(cfg, ev', n, FailureNoted(kind))
            && Drive(cfg, ev, n, Failing(c, kind), script, now) == Drive(cfg, ev', n, FailureNoted(kind), script, now)
  {
    DriveOneWrite(cfg, ev, n, Failing(c, kind), script, now);
    if c !in ev.consumers {
      var started := SetConsumer(ev, c, Started);
      DriveOneWrite(cfg, started, n, Failing(c, kind), script, now);
      assert ev.consumers[c := Started][c := Failed] == ev.consumers[c := Failed];
    }
  }

  lemma PermanentWrites(cfg: Config, ev: Event, n: nat, script: Script, now: int)
    requires Fits(cfg, ev, n, FailureNoted(Permanent))
    ensures var marked := SetStatus(ev, DeadLettered);
            var recorded := marked.(deadLetters := marked.deadLetters + [DeadLetter(PermanentFailure, n)]);
            Drive(cfg, ev, n, FailureNoted(Permanent), script, now)
            == Ended(CloseAttempt(recorded, n, AttemptDeadLettered, now), false)
  {
    var marked := SetStatus(ev, DeadLettered);
    var recorded := marked.(deadLetters := marked.deadLetters + [DeadLetter(PermanentFailure, n)]);
    DriveOneWrite(cfg, ev, n, FailureNoted(Permanent), script, now);
    DriveOneWrite(cfg, marked, n, DeadMarked(false), script, now);
    DriveOneWrite(cfg, recorded, n, DeadRecorded, script, now);
  }

  /** Once an exception has escaped, the rest of the batch changes nothing. */
  lemma {:induction false} EscapeAbandons(cfg: Config, events: map<EventId, Event>, queue: seq<EventId>, k: nat,
                                          name: string, script: EventId -> Script, now: int)
    requires k <= |queue| && forall e :: e in queue ==> e in events
    requires DispatchAll(cfg, events, queue[..k], name, script, now).escaped
    ensures DispatchAll(cfg, events, queue, name, script, now)
            == DispatchAll(cfg, events, queue[..k], name, script, now)
    decreases |queue|
  {
    if k < |queue| {
      assert queue[..|queue| - 1][..k] == queue[..k];
      EscapeAbandons(cfg, events, queue[..|queue| - 1], k, name, script, now);
    } else {
      assert queue[..k] == queue;
    }
  }

  // ---- The service ----

  class Backbone {
    const cfg: Config
    var events: map<EventId, Event>
    var now: int

    ghost predicate Valid()
      reads this
    {
      ValidConfig(cfg) && forall e :: e in events ==> Resting(cfg, events[e])
    }

    constructor (cfg: Config, now: int)
      requires ValidConfig(cfg)
      ensures Valid() && events == map[] && this.cfg == cfg && this.now == now
    {
      this.cfg := cfg;
      this.events := map[];
      this.now := now;
    }

    method WriteOutboxEvent(id: EventId, eventType: string, key: string, priority: Priority, occurredAt: int)
      returns (written: bool)
      requires Valid() && id !in events
      modifies this`events
      ensures Valid()
      ensures written <==> forall e :: e in old(events) ==> old(events)[e].row.idempotencyKey != key
      ensures events == if written
                        then old(events)[id := NewEvent(Write(id, eventType, key, priority, occurredAt), now)]
                        else old(events)
      ensures written ==>
                && events[id].row == Row(eventType, key, priority, occurredAt, Pending, now, None, "", None)
                && events[id].attempts == [] && events[id].consumers == map[] && events[id].deadLetters == []
    {
      written := forall e | e in events :: events[e].row.idempotencyKey != key;
      if written {
        events := events[id := NewEvent(Write(id, eventType, key, priority, occurredAt), now)];
      }
    }

    /** The due rows come from the database; the batch is exactly what the `Lock` step of the system allows. */
    method LockPendingEvents(name: string, batchSize: int, due: seq<Candidate>) returns (queue: seq<EventId>)
      requires Valid() && IsDueListing(Sys(now, events, map[]), due)
      modifies this`events
      ensures LocksBatch(cfg, now, old(events), events, name, batchSize, due, queue)
      ensures Valid() && NoRepeats(queue)
      ensures forall e :: e in queue ==> e in events && events[e].row.status == Locked
      ensures forall e :: e in queue <==> exists c :: c in Selection(due, batchSize, now) && c.id == e
      ensures forall i, j :: 0 <= i < j < |queue| ==>
                events[queue[i]].row.occurredAt <= events[queue[j]].row.occurredAt
      ensures events.Keys == old(events).Keys
      ensures forall e :: e in events ==>
                if e !in queue then events[e] == old(events)[e]
                else
                  var row := old(events)[e].row.(status := Locked, lockedAt := Some(now), lockedBy := name);
                  events[e] == old(events)[e].(row := row)
    {
      hide Resting, LocksBatch, Window, SafeBatchSize, Ready, Sort;
      var b := SafeBatchSize(batchSize);
      var plan := PlanDispatchBatch(Window(due, b), b, now, LOCK_TIMEOUT_SECONDS);
      queue := OldestFirst(plan.batch);
      LockingRests(cfg, now, events, name, batchSize, due, queue);
      events := map e | e in events :: if e in queue then LockRow(events[e], now, name) else events[e];
    }

    method MarkEventDispatched(e: EventId, n: nat)
      requires e in events && 1 <= n <= |events[e].attempts|
      modifies this`events
      ensures var ev := old(events)[e];
              var marked := ev.(row := ev.row.(status := Dispatched, dispatchedAt := Some(now)));
              events == old(events)[e := CloseAttempt(marked, n, AttemptSucceeded, now)]
    {
      var ev := events[e];
      events := events[e := ev.(row := ev.row.(status := Dispatched, dispatchedAt := Some(now)))];
      events := events[e := CloseAttempt(events[e], n, AttemptSucceeded, now)];
    }

    method MoveEventToDeadLetter(e: EventId, reason: DeadLetterReason, failedAfterAttempts: nat)
      requires e in events
      modifies this`events
      ensures var ev := SetStatus(old(events)[e], DeadLettered);
              events == old(events)[e := ev.(deadLetters := ev.deadLetters + [DeadLetter(reason, failedAfterAttempts)])]
    {
      events := events[e := SetStatus(events[e], DeadLettered)];
      var ev := events[e];
      events := events[e := ev.(deadLetters := ev.deadLetters + [DeadLetter(reason, failedAfterAttempts)])];
    }

    method MarkEventFailedRetryable(e: EventId, n: nat, ghost script: Script)
      requires e in events && Fits(cfg, events[e], n, FailureNoted(Retryable))
      modifies this`events
      ensures events == old(events)[e := Drive(cfg, old(events)[e], n, FailureNoted(Retryable), script, now).event]
      ensures !Drive(cfg, old(events)[e], n, FailureNoted(Retryable), script, now).escaped
    {
      DriveOneWrite(cfg, events[e], n, FailureNoted(Retryable), script, now);
      events := events[e := CloseAttempt(events[e], n, AttemptFailedRetryable, now)];
      DriveOneWrite(cfg, events[e], n, RetryNoted, script, now);
      var decision := DecideRetry(RetryableFailure, n, MAX_RETRY_ATTEMPTS);
      if decision.shouldDeadLetter {
        DriveOneWrite(cfg, SetStatus(events[e], DeadLettered), n, DeadMarked(true), script, now);
        MoveEventToDeadLetter(e, MaxRetriesExceeded, n);
      } else {
        events := events[e := ScheduleRetry(events[e], n, now)];
      }
    }

    method AlreadyProcessed(e: EventId, c: string) returns (skip: bool)
      requires e in events
      ensures skip <==> c in events[e].consumers && events[e].consumers[c] != Failed
    {
      skip := ShouldSkip(StatusOf(events[e], c));
    }

    /** An existing consumer row is left as it is, even a failed one. */
    method RecordConsumerStarted(e: EventId, c: string)
      requires e in events
      modifies this`events
      ensures events == if c in old(events)[e].consumers then old(events)
                        else old(events)[e := SetConsumer(old(events)[e], c, Started)]
    {
      if c !in events[e].consumers {
        events := events[e := SetConsumer(events[e], c, Started)];
      }
    }

    method RecordConsumerProcessed(e: EventId, c: string)
      requires e in events
      modifies this`events
      ensures events == old(events)[e := SetConsumer(old(events)[e], c, Processed)]
    {
      RecordConsumerStarted(e, c);
      events := events[e := SetConsumer(events[e], c, Processed)];
      assert old(events)[e].consumers[c := Started][c := Processed] == old(events)[e].consumers[c := Processed];
    }

    method RecordConsumerFailed(e: EventId, c: string)
      requires e in events
      modifies this`events
      ensures events == old(events)[e := SetConsumer(old(events)[e], c, Failed)]
    {
      RecordConsumerStarted(e, c);
      events := events[e := SetConsumer(events[e], c, Failed)];
      assert old(events)[e].consumers[c := Started][c := Failed] == old(events)[e].consumers[c := Failed];
    }

    /** One turn of the consumer loop: go on with the next consumer, or leave with an exception. */
    method RunConsumer(e: EventId, n: nat, i: nat, script: Script) returns (turn: Turn)
      requires e in events && Fits(cfg, events[e], n, Examine(i)) && i < |HandlersOf(cfg, events[e])|
      modifies this`events
      ensures e in events && events == old(events)[e := events[e]]
      ensures TurnTaken(cfg, old(events)[e], events[e], n, i, turn, script, now)
    {
      var c := HandlersOf(cfg, events[e])[i];
      DriveOneWrite(cfg, events[e], n, Examine(i), script, now);
      if !Authorized(cfg, events[e], c) {
        return Raised(c, Permanent);
      }
      var skip := AlreadyProcessed(e, c);
      if skip {
        return GoOn;
      }
      RecordConsumerStarted(e, c);
      turn := CallHandler(e, n, i, script);
    }

    /** The handler runs, and its outcome is recorded or handed on. */
    method CallHandler(e: EventId, n: nat, i: nat, script: Script) returns (turn: Turn)
      requires e in events && Fits(cfg, events[e], n, Calling(i))
      modifies this`events
      ensures e in events && events == old(events)[e := events[e]]
      ensures LoopLeft(cfg, old(events)[e], events[e], n, Calling(i), i + 1, turn, script, now)
    {
      var c := HandlersOf(cfg, events[e])[i];
      var result := script(c);
      if result.Escapes? {
        events := events[e := Interrupt(cfg, events[e], Calling(i))];
        return Escaped;
      }
      DriveOneWrite(cfg, events[e], n, Calling(i), script, now);
      events := events[e := LogCall(events[e], c, result.outcome.ReturnsNormally?)];
      match result.outcome
      case RaisesRetryable => turn := Raised(c, Retryable);
      case RaisesPermanent => turn := Raised(c, Permanent);
      case ReturnsNormally =>
        DriveOneWrite(cfg, events[e], n, Returned(i), script, now);
        RecordConsumerProcessed(e, c);
        turn := GoOn;
    }

    /** The consumer loop of one visit. */
    method RunConsumers(e: EventId, n: nat, script: Script) returns (turn: Turn)
      requires e in events && Fits(cfg, events[e], n, Examine(0))
      modifies this`events
      ensures e in events && events == old(events)[e := events[e]]
      ensures LoopLeft(cfg, old(events)[e], events[e], n, Examine(0),
                       |HandlersOf(cfg, old(events)[e])|, turn, script, now)
    {
      var hs := HandlersOf(cfg, events[e]);
      var i := 0;
      while i < |hs|
        invariant 0 <= i <= |hs|
        invariant e in events && events == old(events)[e := events[e]]
        invariant HandlersOf(cfg, events[e]) == hs && Fits(cfg, events[e], n, Examine(i))
        invariant LoopLeft(cfg, old(events)[e], events[e], n, Examine(0), i, GoOn, script, now)
      {
        turn := RunConsumer(e, n, i, script);
        if turn != GoOn {
          return;
        }
        i := i + 1;
      }
      turn := GoOn;
    }

    /** The two exception handlers of the dispatch loop. */
    method RecordFailure(e: EventId, n: nat, c: string, kind: Failure, ghost script: Script)
      requires e in events && Fits(cfg, events[e], n, Failing(c, kind))
      modifies this`events
      ensures var ended := Drive(cfg, old(events)[e], n, Failing(c, kind), script, now);
              events == old(events)[e := ended.event] && !ended.escaped
    {
      FailureWrites(cfg, events[e], n, c, kind, script, now);
      RecordConsumerFailed(e, c);
      if kind == Retryable {
        MarkEventFailedRetryable(e, n, script);
      } else {
        PermanentWrites(cfg, events[e], n, script, now);
        MoveEventToDeadLetter(e, PermanentFailure, n);
        events := events[e := CloseAttempt(events[e], n, AttemptDeadLettered, now)];
      }
    }

    method DispatchEvent(e: EventId, name: string, script: Script) returns (escaped: bool)
      requires e in events
      modifies this`events
      ensures var ended := VisitOf(cfg, old(events)[e], name, script, now);
              events == old(events)[e := ended.event] && escaped == ended.escaped
    {
      events := events[e := OpenAttempt(events[e], name)];
      var n := |events[e].attempts|;
      var turn := RunConsumers(e, n, script);
      escaped := turn == Escaped;
      match turn
      case Escaped =>
      case GoOn =>
        ghost var ev := events[e];
        DriveOneWrite(cfg, ev, n, Examine(|HandlersOf(cfg, ev)|), script, now);
        ghost var marked := Step(cfg, ev, n, Examine(|HandlersOf(cfg, ev)|), ReturnsNormally, now).event;
        DriveOneWrite(cfg, marked, n, DispatchMarked, script, now);
        MarkEventDispatched(e, n);
      case Raised(c, kind) => RecordFailure(e, n, c, kind, script);
    }

    /** The loop over the locked batch, which an escaping exception leaves at once. */
    method DispatchBatch(queue: seq<EventId>, name: string, script: EventId -> Script)
      returns (dispatched: nat, escaped: bool)
      requires forall e :: e in queue ==> e in events
      modifies this`events
      ensures BatchResult(events, dispatched, escaped) == DispatchAll(cfg, old(events), queue, name, script, now)
    {
      dispatched, escaped := 0, false;
      for k := 0 to |queue|
        invariant !escaped
        invariant BatchResult(events, dispatched, escaped)
          == DispatchAll(cfg, old(events), queue[..k], name, script, now)
      {
        DispatchAllNext(cfg, old(events), queue, k, name, script, now);
        escaped := DispatchEvent(queue[k], name, script(queue[k]));
        if events[queue[k]].row.status == Dispatched {
          dispatched := dispatched + 1;
        }
        if escaped {
          EscapeAbandons(cfg, old(events), queue, k + 1, name, script, now);
          return;
        }
      }
      assert queue[..|queue|] == queue;
    }

    method DispatchPendingEvents(name: string, batchSize: int, due: seq<Candidate>, script: EventId -> Script)
      returns (dispatched: nat, escaped: bool, queue: seq<EventId>, ghost locked: map<EventId, Event>)
      requires Valid() && IsDueListing(Sys(now, events, map[]), due)
      modifies this`events
      ensures Valid()
      ensures LocksBatch(cfg, now, old(events), locked, name, batchSize, due, queue)
      ensures forall e :: e in queue ==> e in locked
      ensures BatchResult(events, dispatched, escaped) == DispatchAll(cfg, locked, queue, name, script, now)
    {
      queue := LockPendingEvents(name, batchSize, due);
      locked := events;
      DispatchAllRests(cfg, locked, queue, name, script, now);
      dispatched, escaped := DispatchBatch(queue, name, script);
    }
  }
}
