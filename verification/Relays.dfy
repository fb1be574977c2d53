/**
 Any number of relays over one outbox, as a transition system whose steps are
 single database writes.  `lock_pending_events` selects and updates in one step.
 Under `OneRelay` a batch is locked only while no relay is busy.  Under `Leases`
 relays overlap freely, and each finishes or abandons its batch within the lock
 timeout.
 */
module Relays {
  import opened Options
  import opened EventModel
  import opened Outbox
  import opened Retry
  import opened Planner

  type RelayId = nat

  datatype Visit = Visit(id: EventId, number: nat, phase: Phase)

  datatype Relay = Relay(name: string, lockedAt: int, visit: Option<Visit>, rest: seq<EventId>)

  datatype Concurrency = OneRelay | Leases

  datatype Sys = Sys(now: int, events: map<EventId, Event>, relays: map<RelayId, Relay>)

  datatype Action =
    | Write(id: EventId, eventType: string, key: string, priority: Priority, occurredAt: int)
    | Lock(relay: RelayId, name: string, batchSize: int, due: seq<Candidate>, queue: seq<EventId>)
    | Begin(relay: RelayId)
    | Advance(relay: RelayId, outcome: Outcome)
    | Die(relay: RelayId)
    | Tick(seconds: nat)

  predicate Busy(relay: Relay) {
    relay.visit.Some? || relay.rest != []
  }

  /** The relay still has to process, or finish processing, the event. */
  predicate Holds(relay: Relay, e: EventId) {
    e in relay.rest || (relay.visit.Some? && relay.visit.value.id == e)
  }

  function NewEvent(a: Action, now: int): Event
    requires a.Write?
  {
    Event(Row(a.eventType, a.key, a.priority, a.occurredAt, Pending, now, None, "", None),
          [], map[], [], History(0, 0, false, {}, []))
  }

  /** What the database returns for the query of `lock_pending_events`: every due row, by due time then age. */
  ghost predicate IsDueListing(s: Sys, due: seq<Candidate>) {
    && DistinctIds(due)
    && (forall i :: 0 <= i < |due| ==>
          due[i].id in s.events && due[i].row == s.events[due[i].id].row && IsDue(due[i].row, s.now))
    && (forall e :: e in s.events && IsDue(s.events[e].row, s.now) ==> exists i :: 0 <= i < |due| && due[i].id == e)
    && (forall i, j :: 0 <= i < j < |due| ==>
          due[i].row.availableAt < due[j].row.availableAt
          || (due[i].row.availableAt == due[j].row.availableAt && due[i].row.occurredAt <= due[j].row.occurredAt))
  }

  /** Every free row is in the listing, behind no row that became due later. */
  lemma FreeRowsAreListed(s: Sys, due: seq<Candidate>, e: EventId) returns (i: nat)
    requires IsDueListing(s, due) && e in s.events && IsFree(s.events[e].row, s.now)
    ensures i < |due| && due[i] == Candidate(e, s.events[e].row)
    ensures forall j :: 0 <= j < i ==>
              due[j].row.availableAt <= s.events[e].row.availableAt
              && (due[j].row.availableAt == s.events[e].row.availableAt ==>
                    due[j].row.occurredAt <= s.events[e].row.occurredAt)
  {
    i :| 0 <= i < |due| && due[i].id == e;
  }

  ghost predicate Selected(a: Action, now: int, e: EventId)
    requires a.Lock?
  {
    exists c :: c in Selection(a.due, a.batchSize, now) && c.id == e
  }

  /** The batch handed to the dispatch loop: the selected rows, oldest first. */
  ghost predicate IsBatch(s: Sys, a: Action)
    requires a.Lock?
  {
    && (forall i, j :: 0 <= i < j < |a.queue| ==> a.queue[i] != a.queue[j])
    && (forall e :: e in a.queue <==> Selected(a, s.now, e))
    && (forall e :: e in a.queue ==> e in s.events)
    && (forall i, j :: 0 <= i < j < |a.queue| ==>
          s.events[a.queue[i]].row.occurredAt <= s.events[a.queue[j]].row.occurredAt)
  }

  ghost predicate Enabled(mode: Concurrency, cfg: Config, s: Sys, a: Action) {
    match a
    case Write(id, _, key, _, _) =>
      id !in s.events && forall e :: e in s.events ==> s.events[e].row.idempotencyKey != key
    case Lock(r, _, _, due, queue) =>
      && (r in s.relays ==> !Busy(s.relays[r]))
      && (mode == OneRelay ==> forall q :: q in s.relays ==> !Busy(s.relays[q]))
      && IsDueListing(s, due) && IsBatch(s, a)
    case Begin(r) =>
      r in s.relays && s.relays[r].visit == None && s.relays[r].rest != [] && s.relays[r].rest[0] in s.events
    case Advance(r, _) =>
      && r in s.relays && s.relays[r].visit.Some?
      && var v := s.relays[r].visit.value;
         v.id in s.events && Fits(cfg, s.events[v.id], v.number, v.phase)
    case Die(r) =>
      r in s.relays && Busy(s.relays[r]) && (s.relays[r].visit.Some? ==> s.relays[r].visit.value.id in s.events)
    case Tick(seconds) =>
      mode == Leases ==>
        forall r :: r in s.relays && Busy(s.relays[r]) ==>
          s.now + seconds <= s.relays[r].lockedAt + LOCK_TIMEOUT_SECONDS
  }

  ghost function Apply(mode: Concurrency, cfg: Config, s: Sys, a: Action): Sys
    requires Enabled(mode, cfg, s, a)
  {
    match a
    case Write(id, _, _, _, _) => s.(events := s.events[id := NewEvent(a, s.now)])
    case Lock(r, name, _, _, queue) =>
      s.(events := map e | e in s.events :: if e in queue then LockRow(s.events[e], s.now, name) else s.events[e],
         relays := s.relays[r := Relay(name, s.now, None, queue)])
    case Begin(r) =>
      var relay := s.relays[r];
      var e := relay.rest[0];
      var ev := OpenAttempt(s.events[e], relay.name);
      s.(events := s.events[e := ev],
         relays := s.relays[r := relay.(visit := Some(Visit(e, |ev.attempts|, Examine(0))), rest := relay.rest[1..])])
    case Advance(r, outcome) =>
      var relay := s.relays[r];
      var v := relay.visit.value;
      var p := Step(cfg, s.events[v.id], v.number, v.phase, outcome, s.now);
      s.(events := s.events[v.id := p.event],
         relays := s.relays[r := relay.(visit := match p.next
                                                 case Some(ph) => Some(v.(phase := ph))
                                                 case None => None)])
    case Die(r) =>
      var relay := s.relays[r];
      s.(events := match relay.visit
                   case Some(v) => s.events[v.id := Interrupt(cfg, s.events[v.id], v.phase)]
                   case None => s.events,
         relays := s.relays[r := relay.(visit := None, rest := [])])
    case Tick(seconds) => s.(now := s.now + seconds)
  }

  // ---- The invariant ----

  ghost predicate Visited(s: Sys, e: EventId) {
    exists r :: r in s.relays && s.relays[r].visit.Some? && s.relays[r].visit.value.id == e
  }

  predicate HeldRow(s: Sys, e: EventId, lockedAt: int) {
    e in s.events && s.events[e].row.status == Locked && s.events[e].row.lockedAt == Some(lockedAt)
  }

  ghost predicate RelayOk(mode: Concurrency, cfg: Config, s: Sys, relay: Relay) {
    && (forall i, j :: 0 <= i < j < |relay.rest| ==> relay.rest[i] != relay.rest[j])
    && (forall e :: e in relay.rest ==> HeldRow(s, e, relay.lockedAt))
    && (relay.visit.Some? ==>
          var v := relay.visit.value;
          && v.id in s.events && v.id !in relay.rest
          && Active(cfg, s.events[v.id], v.number, v.phase, s.now)
          && (s.events[v.id].row.status == Locked ==> s.events[v.id].row.lockedAt == Some(relay.lockedAt)))
    && (mode == Leases && Busy(relay) ==> s.now <= relay.lockedAt + LOCK_TIMEOUT_SECONDS)
  }

  ghost predicate Exclusive(mode: Concurrency, s: Sys) {
    forall q, r :: q in s.relays && r in s.relays && q != r ==>
      && (mode == OneRelay ==> !(Busy(s.relays[q]) && Busy(s.relays[r])))
      && (forall e :: Holds(s.relays[q], e) ==> !Holds(s.relays[r], e))
  }

  ghost predicate Inv(mode: Concurrency, cfg: Config, s: Sys) {
    && (forall r :: r in s.relays ==> RelayOk(mode, cfg, s, s.relays[r]))
    && Exclusive(mode, s)
    && (forall e :: e in s.events ==> Visited(s, e) || Resting(cfg, s.events[e]))
  }

  lemma HolderIsAlone(mode: Concurrency, cfg: Config, s: Sys, r: RelayId, e: EventId)
    requires Inv(mode, cfg, s) && r in s.relays && e in s.relays[r].rest
    ensures e in s.events && s.events[e].row.status == Locked && Resting(cfg, s.events[e])
  {
    assert HeldRow(s, e, s.relays[r].lockedAt);
    assert Holds(s.relays[r], e);
    forall q | q in s.relays && s.relays[q].visit.Some?
      ensures s.relays[q].visit.value.id != e
    {
      assert RelayOk(mode, cfg, s, s.relays[q]);
      assert q != r ==> !Holds(s.relays[q], e);
    }
  }

  /** An eligible row is held by nobody: its lock is older than any lease still running. */
  lemma EligibleIsFree(mode: Concurrency, cfg: Config, s: Sys, r: RelayId, e: EventId)
    requires Inv(mode, cfg, s) && r in s.relays
    requires mode == OneRelay ==> !Busy(s.relays[r])
    requires e in s.events && Eligible(s.events[e].row, s.now, LOCK_TIMEOUT_SECONDS)
    ensures !Holds(s.relays[r], e)
  {
    var relay := s.relays[r];
    assert RelayOk(mode, cfg, s, relay);
    assert e in relay.rest ==> HeldRow(s, e, relay.lockedAt);
    assert relay.visit.Some? && relay.visit.value.id == e ==>
        Active(cfg, s.events[e], relay.visit.value.number, relay.visit.value.phase, s.now);
  }

  lemma SelectedIsEligible(s: Sys, a: Action, e: EventId)
    requires a.Lock? && IsDueListing(s, a.due) && Selected(a, s.now, e)
    ensures e in s.events && Eligible(s.events[e].row, s.now, LOCK_TIMEOUT_SECONDS)
  {
    var c :| c in Selection(a.due, a.batchSize, s.now) && c.id == e;
    SelectionIsTheFrontOfTheWindow(a.due, a.batchSize, s.now);
    assert c in Window(a.due, SafeBatchSize(a.batchSize));
    var i :| 0 <= i < |a.due| && a.due[i] == c;
  }

  lemma LockRests(cfg: Config, ev: Event, now: int, name: string)
    requires Resting(cfg, ev) && Eligible(ev.row, now, LOCK_TIMEOUT_SECONDS)
    ensures Resting(cfg, LockRow(ev, now, name))
  {
    SameAccounts(cfg, ev, LockRow(ev, now, name), None, None);
  }

  /** A relay does not notice new rows, nor time passing within its lease. */
  lemma RelayStaysOk(mode: Concurrency, cfg: Config, s: Sys, s': Sys, relay: Relay)
    requires RelayOk(mode, cfg, s, relay) && s.now <= s'.now
    requires forall e :: e in s.events ==> e in s'.events && s'.events[e] == s.events[e]
    requires mode == Leases && Busy(relay) ==> s'.now <= relay.lockedAt + LOCK_TIMEOUT_SECONDS
    ensures RelayOk(mode, cfg, s', relay)
  {
    hide Numbered, Accounted, StartsExplained, SkippedUpTo;
    forall e | e in relay.rest
      ensures HeldRow(s', e, relay.lockedAt)
    {
      assert HeldRow(s, e, relay.lockedAt);
    }
  }

  /** Steps that leave the relays and the stored rows alone keep the invariant. */
  lemma QuietStepKeepsInv(mode: Concurrency, cfg: Config, s: Sys, s': Sys)
    requires Inv(mode, cfg, s) && s'.relays == s.relays && s.now <= s'.now
    requires forall e :: e in s.events ==> e in s'.events && s'.events[e] == s.events[e]
    requires forall e :: e in s'.events && e !in s.events ==> Resting(cfg, s'.events[e])
    requires forall r :: r in s.relays && mode == Leases && Busy(s.relays[r]) ==>
               s'.now <= s.relays[r].lockedAt + LOCK_TIMEOUT_SECONDS
    ensures Inv(mode, cfg, s')
  {
    hide Resting, Active, RelayOk;
    forall r | r in s'.relays
      ensures RelayOk(mode, cfg, s', s'.relays[r])
    {
      RelayStaysOk(mode, cfg, s, s', s.relays[r]);
    }
    assert Exclusive(mode, s');
    assert forall e :: e in s.events && Visited(s, e) ==> Visited(s', e);
  }

  lemma WriteKeepsInv(mode: Concurrency, cfg: Config, s: Sys, a: Action)
    requires Inv(mode, cfg, s) && a.Write? && Enabled(mode, cfg, s, a)
    ensures Inv(mode, cfg, Apply(mode, cfg, s, a))
  {
    assert Resting(cfg, NewEvent(a, s.now));
    hide Resting, Active;
    forall r | r in s.relays
      ensures RelayOk(mode, cfg, s, s.relays[r])
    {
    }
    QuietStepKeepsInv(mode, cfg, s, Apply(mode, cfg, s, a));
  }

  lemma TickKeepsInv(mode: Concurrency, cfg: Config, s: Sys, a: Action)
    requires Inv(mode, cfg, s) && a.Tick? && Enabled(mode, cfg, s, a)
    ensures Inv(mode, cfg, Apply(mode, cfg, s, a))
  {
    hide Resting, Active;
    QuietStepKeepsInv(mode, cfg, s, Apply(mode, cfg, s, a));
  }

  /** Nothing that is locked in this step was held by a relay. */
  lemma LockTakesFreeEvents(mode: Concurrency, cfg: Config, s: Sys, a: Action, e: EventId)
    requires Inv(mode, cfg, s) && a.Lock? && Enabled(mode, cfg, s, a) && e in a.queue
    ensures e in s.events && Eligible(s.events[e].row, s.now, LOCK_TIMEOUT_SECONDS)
    ensures forall q :: q in s.relays ==> !Holds(s.relays[q], e)
  {
    assert Selected(a, s.now, e);
    SelectedIsEligible(s, a, e);
    forall q | q in s.relays ensures !Holds(s.relays[q], e) {
      EligibleIsFree(mode, cfg, s, q, e);
    }
  }

  lemma LockLeavesRelay(mode: Concurrency, cfg: Config, s: Sys, s': Sys, relay: Relay)
    requires RelayOk(mode, cfg, s, relay) && s'.now == s.now
    requires forall e :: e in s.events && Holds(relay, e) ==> e in s'.events && s'.events[e] == s.events[e]
    ensures RelayOk(mode, cfg, s', relay)
  {
    forall e | e in relay.rest
      ensures HeldRow(s', e, relay.lockedAt)
    {
      assert HeldRow(s, e, relay.lockedAt) && Holds(relay, e);
    }
    assert relay.visit.Some? ==> Holds(relay, relay.visit.value.id);
  }

  lemma LockKeepsRelays(mode: Concurrency, cfg: Config, s: Sys, a: Action, r: RelayId)
    requires Inv(mode, cfg, s) && a.Lock? && Enabled(mode, cfg, s, a) && r in Apply(mode, cfg, s, a).relays
    ensures var s' := Apply(mode, cfg, s, a); RelayOk(mode, cfg, s', s'.relays[r])
  {
    var s' := Apply(mode, cfg, s, a);
    if r == a.relay {
      forall e | e in a.queue ensures HeldRow(s', e, s.now) {
      }
    } else {
      forall e | e in a.queue ensures !Holds(s.relays[r], e) {
        LockTakesFreeEvents(mode, cfg, s, a, e);
      }
      LockLeavesRelay(mode, cfg, s, s', s.relays[r]);
    }
  }

  /** A relay that takes only free events leaves the others theirs. */
  lemma TakingFreeEvents(mode: Concurrency, s: Sys, s': Sys, r: RelayId, relay: Relay)
    requires Exclusive(mode, s) && s'.relays == s.relays[r := relay]
    requires mode == OneRelay ==> forall q :: q in s.relays ==> !Busy(s.relays[q])
    requires forall q, e :: q in s.relays && Holds(relay, e) ==> !Holds(s.relays[q], e)
    ensures Exclusive(mode, s')
  {
  }

  lemma LockKeepsExclusive(mode: Concurrency, cfg: Config, s: Sys, a: Action)
    requires Inv(mode, cfg, s) && a.Lock? && Enabled(mode, cfg, s, a)
    ensures Exclusive(mode, Apply(mode, cfg, s, a))
  {
    hide Resting, RelayOk, IsDueListing, IsBatch, Busy;
    var relay := Relay(a.name, s.now, None, a.queue);
    forall q, e | q in s.relays && Holds(relay, e)
      ensures !Holds(s.relays[q], e)
    {
      LockTakesFreeEvents(mode, cfg, s, a, e);
    }
    hide Holds, Exclusive;
    TakingFreeEvents(mode, s, Apply(mode, cfg, s, a), a.relay, relay);
  }

  lemma LockKeepsInv(mode: Concurrency, cfg: Config, s: Sys, a: Action)
    requires Inv(mode, cfg, s) && a.Lock? && Enabled(mode, cfg, s, a)
    ensures Inv(mode, cfg, Apply(mode, cfg, s, a))
  {
    var s' := Apply(mode, cfg, s, a);
    forall r | r in s'.relays
      ensures RelayOk(mode, cfg, s', s'.relays[r])
    {
      LockKeepsRelays(mode, cfg, s, a, r);
    }
    LockKeepsExclusive(mode, cfg, s, a);
    forall e | e in s'.events
      ensures Visited(s', e) || Resting(cfg, s'.events[e])
    {
      LockLeavesEvent(mode, cfg, s, a, e);
    }
  }

  /** A relay that visits an event is not the one that locks, and the event is not locked anew. */
  lemma VisitorKeepsVisiting(mode: Concurrency, cfg: Config, s: Sys, a: Action, q: RelayId, e: EventId)
    requires a.Lock? && Enabled(mode, cfg, s, a)
    requires q in s.relays && s.relays[q].visit.Some? && s.relays[q].visit.value.id == e
    ensures Visited(Apply(mode, cfg, s, a), e)
  {
    hide IsDueListing, IsBatch;
    var s' := Apply(mode, cfg, s, a);
    assert q in s'.relays && s'.relays[q] == s.relays[q];
  }

  lemma LockLeavesEvent(mode: Concurrency, cfg: Config, s: Sys, a: Action, e: EventId)
    requires Inv(mode, cfg, s) && a.Lock? && Enabled(mode, cfg, s, a) && e in s.events
    ensures var s' := Apply(mode, cfg, s, a); Visited(s', e) || Resting(cfg, s'.events[e])
  {
    hide Resting, RelayOk, IsDueListing, IsBatch;
    var s' := Apply(mode, cfg, s, a);
    if Visited(s, e) {
      var q :| q in s.relays && s.relays[q].visit.Some? && s.relays[q].visit.value.id == e;
      VisitorKeepsVisiting(mode, cfg, s, a, q, e);
    } else if e in a.queue {
      LockTakesFreeEvents(mode, cfg, s, a, e);
      LockRests(cfg, s.events[e], s.now, a.name);
    }
  }

  /** A step of relay `r` on the event `e` it holds leaves every other relay as it was. */
  lemma OthersUndisturbed(mode: Concurrency, cfg: Config, s: Sys, s': Sys, r: RelayId, q: RelayId, e: EventId)
    requires Inv(mode, cfg, s) && r in s.relays && q in s.relays && q != r && Holds(s.relays[r], e)
    requires q in s'.relays && s'.relays[q] == s.relays[q] && s'.now == s.now
    requires forall d :: d in s.events && d != e ==> d in s'.events && s'.events[d] == s.events[d]
    ensures RelayOk(mode, cfg, s', s'.relays[q])
  {
    assert RelayOk(mode, cfg, s, s.relays[q]);
    assert !Holds(s.relays[q], e);
    forall d | d in s.relays[q].rest
      ensures HeldRow(s', d, s.relays[q].lockedAt)
    {
      assert HeldRow(s, d, s.relays[q].lockedAt) && Holds(s.relays[q], d);
    }
  }

  /** A step in which relay `r` changes itself and one event it holds. */
  ghost predicate HolderStep(s: Sys, s': Sys, r: RelayId, e: EventId) {
    && r in s.relays && Holds(s.relays[r], e) && e in s.events
    && s'.now == s.now && s'.relays.Keys == s.relays.Keys && s'.events.Keys == s.events.Keys
    && (forall q :: q in s.relays && q != r ==> s'.relays[q] == s.relays[q])
    && (forall d :: d in s.events && d != e ==> s'.events[d] == s.events[d])
    && (forall d :: Holds(s'.relays[r], d) ==> Holds(s.relays[r], d))
    && (s.relays[r].visit.Some? ==> s.relays[r].visit.value.id == e)
  }

  lemma HolderStepExclusive(mode: Concurrency, s: Sys, s': Sys, r: RelayId, e: EventId)
    requires Exclusive(mode, s) && HolderStep(s, s', r, e)
    ensures Exclusive(mode, s')
  {
    assert Busy(s.relays[r]);
    forall p, q | p in s'.relays && q in s'.relays && p != q
      ensures mode == OneRelay ==> !(Busy(s'.relays[p]) && Busy(s'.relays[q]))
      ensures forall d :: Holds(s'.relays[p], d) ==> !Holds(s'.relays[q], d)
    {
      assert forall d :: Holds(s'.relays[p], d) ==> Holds(s.relays[p], d);
      assert forall d :: Holds(s'.relays[q], d) ==> Holds(s.relays[q], d);
    }
  }

  lemma HolderStepVisits(cfg: Config, s: Sys, s': Sys, r: RelayId, e: EventId, d: EventId)
    requires HolderStep(s, s', r, e) && d in s.events && d != e
    requires Visited(s, d) || Resting(cfg, s.events[d])
    ensures Visited(s', d) || Resting(cfg, s'.events[d])
  {
    if Visited(s, d) {
      var q :| q in s.relays && s.relays[q].visit.Some? && s.relays[q].visit.value.id == d;
      assert q in s'.relays && s'.relays[q] == s.relays[q];
    }
  }

  lemma HolderStepKeepsInv(mode: Concurrency, cfg: Config, s: Sys, s': Sys, r: RelayId, e: EventId)
    requires Inv(mode, cfg, s) && HolderStep(s, s', r, e)
    requires RelayOk(mode, cfg, s', s'.relays[r])
    requires s'.relays[r].visit == None ==> Resting(cfg, s'.events[e])
    requires s'.relays[r].visit.Some? ==> s'.relays[r].visit.value.id == e
    ensures Inv(mode, cfg, s')
  {
    HolderStepExclusive(mode, s, s', r, e);
    forall q | q in s'.relays
      ensures RelayOk(mode, cfg, s', s'.relays[q])
    {
      if q != r {
        OthersUndisturbed(mode, cfg, s, s', r, q, e);
      }
    }
    forall d | d in s'.events
      ensures Visited(s', d) || Resting(cfg, s'.events[d])
    {
      if d != e {
        HolderStepVisits(cfg, s, s', r, e, d);
      } else if s'.relays[r].visit.Some? {
        assert s'.relays[r].visit.value.id == d;
      }
    }
  }

  lemma RestStaysHeld(s: Sys, s': Sys, rest: seq<EventId>, e: EventId, lockedAt: int)
    requires forall d :: d in rest ==> HeldRow(s, d, lockedAt) && d != e
    requires s'.events.Keys == s.events.Keys
    requires forall d :: d in s.events && d != e ==> s'.events[d] == s.events[d]
    ensures forall d :: d in rest ==> HeldRow(s', d, lockedAt)
  {
    forall d | d in rest ensures HeldRow(s', d, lockedAt) {
      assert HeldRow(s, d, lockedAt);
    }
  }

  lemma TailOfRest(rest: seq<EventId>)
    requires rest != []
    ensures forall d :: d in rest[1..] ==> d in rest
    ensures (forall i, j :: 0 <= i < j < |rest| ==> rest[i] != rest[j]) ==> rest[0] !in rest[1..]
  {
  }

  lemma BeginMovesHolder(mode: Concurrency, cfg: Config, s: Sys, a: Action)
    requires a.Begin? && Enabled(mode, cfg, s, a)
    ensures HolderStep(s, Apply(mode, cfg, s, a), a.relay, s.relays[a.relay].rest[0])
  {
    var relay := s.relays[a.relay];
    var ev := OpenAttempt(s.events[relay.rest[0]], relay.name);
    var relay' := relay.(visit := Some(Visit(relay.rest[0], |ev.attempts|, Examine(0))), rest := relay.rest[1..]);
    TailOfRest(relay.rest);
    hide OpenAttempt;
    assert Apply(mode, cfg, s, a) == s.(events := s.events[relay.rest[0] := ev], relays := s.relays[a.relay := relay']);
    assert forall d :: Holds(relay', d) ==> Holds(relay, d);
  }

  lemma BeginKeepsRelay(mode: Concurrency, cfg: Config, s: Sys, a: Action)
    requires Inv(mode, cfg, s) && a.Begin? && Enabled(mode, cfg, s, a)
    ensures var s' := Apply(mode, cfg, s, a); RelayOk(mode, cfg, s', s'.relays[a.relay])
  {
    var s', relay := Apply(mode, cfg, s, a), s.relays[a.relay];
    var e := relay.rest[0];
    assert RelayOk(mode, cfg, s, relay);
    HolderIsAlone(mode, cfg, s, a.relay, e);
    hide Inv, Active, Resting, Exclusive, Visited;
    assert HeldRow(s, e, relay.lockedAt);
    OpeningActivates(cfg, s.events[e], relay.name, s.now);
    TailOfRest(relay.rest);
    RestStaysHeld(s, s', relay.rest[1..], e, relay.lockedAt);
  }

  lemma BeginKeepsInv(mode: Concurrency, cfg: Config, s: Sys, a: Action)
    requires Inv(mode, cfg, s) && a.Begin? && Enabled(mode, cfg, s, a)
    ensures Inv(mode, cfg, Apply(mode, cfg, s, a))
  {
    BeginMovesHolder(mode, cfg, s, a);
    BeginKeepsRelay(mode, cfg, s, a);
    HolderStepKeepsInv(mode, cfg, s, Apply(mode, cfg, s, a), a.relay, s.relays[a.relay].rest[0]);
  }

  lemma AdvanceMovesHolder(mode: Concurrency, cfg: Config, s: Sys, a: Action)
    requires a.Advance? && Enabled(mode, cfg, s, a)
    ensures HolderStep(s, Apply(mode, cfg, s, a), a.relay, s.relays[a.relay].visit.value.id)
  {
    hide Step;
  }

  lemma AdvanceKeepsRelay(mode: Concurrency, cfg: Config, s: Sys, a: Action)
    requires ValidConfig(cfg) && a.Advance? && Enabled(mode, cfg, s, a) && RelayOk(mode, cfg, s, s.relays[a.relay])
    ensures var s' := Apply(mode, cfg, s, a);
            && RelayOk(mode, cfg, s', s'.relays[a.relay])
            && (s'.relays[a.relay].visit == None ==> Resting(cfg, s'.events[s.relays[a.relay].visit.value.id]))
  {
    var s', relay := Apply(mode, cfg, s, a), s.relays[a.relay];
    var v := relay.visit.value;
    StepKeepsInvariant(cfg, s.events[v.id], v.number, v.phase, a.outcome, s.now);
    StepKeepsLock(cfg, s.events[v.id], v.number, v.phase, a.outcome, s.now);
    hide Step, Active, Resting;
    RestStaysHeld(s, s', relay.rest, v.id, relay.lockedAt);
    assert s'.events[v.id] == Step(cfg, s.events[v.id], v.number, v.phase, a.outcome, s.now).event;
  }

  lemma AdvanceKeepsInv(mode: Concurrency, cfg: Config, s: Sys, a: Action)
    requires ValidConfig(cfg) && Inv(mode, cfg, s) && a.Advance? && Enabled(mode, cfg, s, a)
    ensures Inv(mode, cfg, Apply(mode, cfg, s, a))
  {
    AdvanceMovesHolder(mode, cfg, s, a);
    AdvanceKeepsRelay(mode, cfg, s, a);
    HolderStepKeepsInv(mode, cfg, s, Apply(mode, cfg, s, a), a.relay, s.relays[a.relay].visit.value.id);
  }

  lemma StepKeepsLock(cfg: Config, ev: Event, n: nat, ph: Phase, outcome: Outcome, now: int)
    requires Fits(cfg, ev, n, ph)
    ensures var ev' := Step(cfg, ev, n, ph, outcome, now).event;
            ev'.row.lockedAt == ev.row.lockedAt && (ev'.row.status == Locked ==> ev.row.status == Locked)
  {
  }

  /** The event a busy relay is working on, or the first it would take up. */
  function HeldFirst(relay: Relay): EventId
    requires Busy(relay)
  {
    if relay.visit.Some? then relay.visit.value.id else relay.rest[0]
  }

  lemma DeathMovesHolder(mode: Concurrency, cfg: Config, s: Sys, a: Action)
    requires a.Die? && Enabled(mode, cfg, s, a) && RelayOk(mode, cfg, s, s.relays[a.relay])
    ensures var s' := Apply(mode, cfg, s, a);
            HolderStep(s, s', a.relay, HeldFirst(s.relays[a.relay])) && RelayOk(mode, cfg, s', s'.relays[a.relay])
  {
    hide Active;
    assert s.relays[a.relay].visit == None ==> HeldRow(s, s.relays[a.relay].rest[0], s.relays[a.relay].lockedAt);
  }

  lemma DeathLeavesRest(mode: Concurrency, cfg: Config, s: Sys, a: Action)
    requires Inv(mode, cfg, s) && a.Die? && Enabled(mode, cfg, s, a)
    ensures var s', e := Apply(mode, cfg, s, a), HeldFirst(s.relays[a.relay]);
            e in s'.events && Resting(cfg, s'.events[e])
  {
    var relay := s.relays[a.relay];
    var e := HeldFirst(relay);
    assert RelayOk(mode, cfg, s, relay);
    if relay.visit.Some? {
      InterruptRests(cfg, s.events[e], relay.visit.value.number, relay.visit.value.phase, s.now);
    } else {
      HolderIsAlone(mode, cfg, s, a.relay, e);
    }
  }

  lemma DieKeepsInv(mode: Concurrency, cfg: Config, s: Sys, a: Action)
    requires Inv(mode, cfg, s) && a.Die? && Enabled(mode, cfg, s, a)
    ensures Inv(mode, cfg, Apply(mode, cfg, s, a))
  {
    DeathMovesHolder(mode, cfg, s, a);
    DeathLeavesRest(mode, cfg, s, a);
    HolderStepKeepsInv(mode, cfg, s, Apply(mode, cfg, s, a), a.relay, HeldFirst(s.relays[a.relay]));
  }

  lemma ApplyKeepsInv(mode: Concurrency, cfg: Config, s: Sys, a: Action)
    requires ValidConfig(cfg) && Inv(mode, cfg, s) && Enabled(mode, cfg, s, a)
    ensures Inv(mode, cfg, Apply(mode, cfg, s, a))
  {
    match a
    case Write(_, _, _, _, _) => WriteKeepsInv(mode, cfg, s, a);
    case Lock(_, _, _, _, _) => LockKeepsInv(mode, cfg, s, a);
    case Begin(_) => BeginKeepsInv(mode, cfg, s, a);
    case Advance(_, _) => AdvanceKeepsInv(mode, cfg, s, a);
    case Die(_) => DieKeepsInv(mode, cfg, s, a);
    case Tick(_) => TickKeepsInv(mode, cfg, s, a);
  }

  // ---- What a step does to one event ----

  datatype Effect =
    | Untouched
    | Relocked(name: string)
    | Opened(name: string)
    | Wrote(number: nat, phase: Phase, outcome: Outcome)
    | Interrupted(number: nat, phase: Phase)

  ghost function EffectOn(mode: Concurrency, cfg: Config, s: Sys, a: Action, e: EventId): Effect
    requires Enabled(mode, cfg, s, a)
  {
    match a
    case Lock(_, name, _, _, queue) => if e in queue then Relocked(name) else Untouched
    case Begin(r) => if s.relays[r].rest[0] == e then Opened(s.relays[r].name) else Untouched
    case Advance(r, outcome) =>
      var v := s.relays[r].visit.value;
      if v.id == e then Wrote(v.number, v.phase, outcome) else Untouched
    case Die(r) =>
      if s.relays[r].visit.Some? && s.relays[r].visit.value.id == e
      then Interrupted(s.relays[r].visit.value.number, s.relays[r].visit.value.phase) else Untouched
    case _ => Untouched
  }

  /** The states of an event in which a step can have the effect. */
  ghost predicate EffectOk(cfg: Config, ev: Event, f: Effect, now: int) {
    match f
    case Untouched => true
    case Relocked(_) => Resting(cfg, ev) && Eligible(ev.row, now, LOCK_TIMEOUT_SECONDS)
    case Opened(_) => Resting(cfg, ev) && ev.row.status == Locked
    case Wrote(n, ph, _) => Active(cfg, ev, n, ph, now)
    case Interrupted(n, ph) => Active(cfg, ev, n, ph, now)
  }

  ghost function After(cfg: Config, ev: Event, f: Effect, now: int): Event
    requires EffectOk(cfg, ev, f, now)
  {
    match f
    case Untouched => ev
    case Relocked(name) => LockRow(ev, now, name)
    case Opened(name) => OpenAttempt(ev, name)
    case Wrote(n, ph, outcome) => Step(cfg, ev, n, ph, outcome, now).event
    case Interrupted(n, ph) => Interrupt(cfg, ev, ph)
  }

  lemma EffectIsPossible(mode: Concurrency, cfg: Config, s: Sys, a: Action, e: EventId)
    requires Inv(mode, cfg, s) && Enabled(mode, cfg, s, a) && e in s.events
    ensures EffectOk(cfg, s.events[e], EffectOn(mode, cfg, s, a, e), s.now)
  {
    hide Active, Resting, IsDueListing, IsBatch, Exclusive;
    match a
    case Lock(_, _, _, _, queue) =>
      if e in queue {
        LockTakesFreeEvents(mode, cfg, s, a, e);
        FreeIsResting(mode, cfg, s, e);
      }
    case Begin(r) =>
      if s.relays[r].rest[0] == e {
        HolderIsAlone(mode, cfg, s, r, e);
      }
    case Advance(r, _) => assert RelayOk(mode, cfg, s, s.relays[r]);
    case Die(r) => assert RelayOk(mode, cfg, s, s.relays[r]);
    case _ =>
  }

  lemma FreeIsResting(mode: Concurrency, cfg: Config, s: Sys, e: EventId)
    requires Inv(mode, cfg, s) && e in s.events && forall q :: q in s.relays ==> !Holds(s.relays[q], e)
    ensures Resting(cfg, s.events[e])
  {
  }

  /** A step is its effect on every event there is. */
  lemma StepIsItsEffect(mode: Concurrency, cfg: Config, s: Sys, a: Action, e: EventId)
    requires Inv(mode, cfg, s) && Enabled(mode, cfg, s, a) && e in s.events
    ensures var f, s' := EffectOn(mode, cfg, s, a, e), Apply(mode, cfg, s, a);
            && EffectOk(cfg, s.events[e], f, s.now)
            && e in s'.events && s'.events[e] == After(cfg, s.events[e], f, s.now)
  {
    hide Inv, EffectOk, EffectOn, Apply, Enabled;
    EffectIsPossible(mode, cfg, s, a, e);
    ApplyIsAfter(mode, cfg, s, a, e);
  }

  lemma ApplyIsAfter(mode: Concurrency, cfg: Config, s: Sys, a: Action, e: EventId)
    requires Enabled(mode, cfg, s, a) && e in s.events
    requires EffectOk(cfg, s.events[e], EffectOn(mode, cfg, s, a, e), s.now)
    ensures var f, s' := EffectOn(mode, cfg, s, a, e), Apply(mode, cfg, s, a);
            e in s'.events && s'.events[e] == After(cfg, s.events[e], f, s.now)
  {
    hide EffectOk, Resting, Active, IsBatch, Step, LockRow, OpenAttempt, Interrupt, NewEvent;
  }

  lemma EffectEvolves(cfg: Config, ev: Event, f: Effect, now: int)
    requires EffectOk(cfg, ev, f, now)
    ensures Evolves(ev, After(cfg, ev, f, now))
  {
    match f
    case Wrote(n, ph, outcome) => StepEvolves(cfg, ev, n, ph, outcome, now);
    case _ =>
  }

  lemma EffectHistory(cfg: Config, ev: Event, f: Effect, now: int)
    requires EffectOk(cfg, ev, f, now)
    ensures var ev' := After(cfg, ev, f, now);
            && ev'.history.interruptions == ev.history.interruptions + Bit(f.Interrupted?)
            && ev'.history.lostRecord == (ev.history.lostRecord || (f.Interrupted? && f.phase.DeadMarked?))
            && (forall c :: c in ev'.history.stuck <==>
                  c in ev.history.stuck || (f.Interrupted? && LeavesStarted(cfg, ev, f.phase, c)))
            && ev'.history.retries ==
               ev.history.retries + Bit(ev.row.status != FailedRetryable && ev'.row.status == FailedRetryable)
  {
    match f
    case Wrote(n, ph, outcome) => StepHistory(cfg, ev, n, ph, outcome, now);
    case _ =>
  }

  /** Only taking an event up opens an attempt. */
  lemma EffectAttempts(cfg: Config, ev: Event, f: Effect, now: int)
    requires EffectOk(cfg, ev, f, now)
    ensures |After(cfg, ev, f, now).attempts| == |ev.attempts| + Bit(f.Opened?)
  {
  }

  /** Entering retry fixes when the event is available again; until then no step touches it. */
  lemma EffectBackoff(cfg: Config, ev: Event, f: Effect, now: int)
    requires EffectOk(cfg, ev, f, now)
    ensures var ev' := After(cfg, ev, f, now);
            ev.row.status != FailedRetryable && ev'.row.status == FailedRetryable ==>
              1 <= |ev'.attempts| <= 2 && ev'.row.availableAt == now + RetryDelay(|ev'.attempts|)
    ensures ev.row.status == FailedRetryable && now < ev.row.availableAt ==> After(cfg, ev, f, now) == ev
  {
    match f
    case Wrote(n, ph, outcome) => StepHistory(cfg, ev, n, ph, outcome, now);
    case _ =>
  }
}
