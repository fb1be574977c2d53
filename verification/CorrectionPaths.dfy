/** Every correction leaves a trail of audit records that spells a short path through the transition table. */
module CorrectionPaths {
  import opened Options
  import opened Marks
  import opened Compilation
  import opened Gradebook

  /** The audit records of one correction, oldest first. */
  function Trail(audits: seq<Audit>, id: nat): seq<Audit> {
    if audits == [] then []
    else Trail(audits[..|audits| - 1], id)
         + (if audits[|audits| - 1].correction == id then [audits[|audits| - 1]] else [])
  }

  /** The trail starts at the request, follows the table, and ends in the present status. */
  ghost predicate SpellsPath(trail: seq<Audit>, q: Correction) {
    && 1 <= |trail| <= 4
    && trail[0].statusFrom == None && trail[0].statusTo == UnderHodReview
    && trail[0].action == RequestedAction && trail[0].actor == q.requestedBy
    && (forall k :: 1 <= k < |trail| ==>
          && trail[k].statusFrom == Some(trail[k - 1].statusTo)
          && trail[k].statusTo in Transitions(trail[k - 1].statusTo))
    && trail[|trail| - 1].statusTo == q.status
  }

  /** The statuses in use, and after how many audit records each is reached. */
  predicate LengthFits(s: CorrectionStatus, n: nat) {
    match s
    case UnderHodReview => n == 1
    case ApprovedByHod => n == 2
    case RejectedByHod => n == 2
    case EscalationRequested => n == 2
    case ApprovedByAcademicHead => n == 3
    case RejectedByAcademicHead => n == 3
    case Applied => n == 3 || n == 4
    case _ => false
  }

  /** Somebody else than the requester wrote this review. */
  ghost predicate IsIndependentReview(a: Audit, q: Correction) {
    && a.action == ReviewedAction && q.reviewedBy == Some(a.actor) && a.actor != q.requestedBy
    && IsApprovedUnapplied(a.statusTo)
  }

  ghost predicate IsIndependentApplication(a: Audit, q: Correction) {
    a.action == AppliedAction && q.appliedBy == Some(a.actor) && a.actor != q.requestedBy
  }

  ghost predicate IsIndependent(trail: seq<Audit>, q: Correction) {
    var n := |trail|;
    && (IsApprovedUnapplied(q.status) ==> 1 <= n && IsIndependentReview(trail[n - 1], q))
    && (q.status == Applied ==>
          2 <= n && IsIndependentReview(trail[n - 2], q) && IsIndependentApplication(trail[n - 1], q))
  }

  ghost predicate CorrectionOk(audits: seq<Audit>, id: nat, q: Correction) {
    var trail := Trail(audits, id);
    SpellsPath(trail, q) && LengthFits(q.status, |trail|) && IsIndependent(trail, q)
  }

  ghost predicate CorrectionInv(book: Book) {
    && (forall i :: 0 <= i < |book.audits| ==> book.audits[i].correction < |book.corrections|)
    && (forall id :: 0 <= id < |book.corrections| ==> CorrectionOk(book.audits, id, book.corrections[id]))
  }

  lemma TrailOfOneMore(audits: seq<Audit>, a: Audit, id: nat)
    ensures Trail(audits + [a], id) == Trail(audits, id) + (if a.correction == id then [a] else [])
  {
    assert (audits + [a])[..|audits + [a]| - 1] == audits;
  }

  lemma {:induction false} NoTrailYet(audits: seq<Audit>, id: nat)
    requires forall i :: 0 <= i < |audits| ==> audits[i].correction != id
    ensures Trail(audits, id) == []
  {
    if audits != [] {
      NoTrailYet(audits[..|audits| - 1], id);
    }
  }

  lemma FreshIsOk(q: Correction, a: Audit)
    requires SpellsPath([a], q) && q.status == UnderHodReview
    ensures LengthFits(q.status, 1) && IsIndependent([a], q)
  {
  }

  lemma NewKeepsInv(book: Book, book': Book, q: Correction, a: Audit)
    requires CorrectionInv(book)
    requires book'.corrections == book.corrections + [q] && book'.audits == book.audits + [a]
    requires a.correction == |book.corrections| && SpellsPath([a], q)
    requires q.status == UnderHodReview
    ensures CorrectionInv(book')
  {
    var n := |book.corrections|;
    FreshIsOk(q, a);
    NoTrailYet(book.audits, n);
    hide SpellsPath, IsIndependent, LengthFits;
    forall id | 0 <= id < |book'.corrections|
      ensures CorrectionOk(book'.audits, id, book'.corrections[id])
    {
      TrailOfOneMore(book.audits, a, id);
      if id < n {
        assert CorrectionOk(book.audits, id, book.corrections[id]);
      } else {
        assert Trail(book'.audits, id) == [a];
      }
    }
  }

  lemma RequestKeepsInv(cfg: Config, book: Book, c: Command)
    requires CorrectionInv(book) && c.Request? && DoRequest(cfg, book, c).outcome == Accepted
    ensures CorrectionInv(DoRequest(cfg, book, c).book)
  {
    var book' := DoRequest(cfg, book, c).book;
    NewKeepsInv(book, book', book'.corrections[|book.corrections|], book'.audits[|book.audits|]);
  }

  lemma LongerPath(trail: seq<Audit>, before: Correction, a: Audit, q: Correction)
    requires SpellsPath(trail, before) && LengthFits(q.status, |trail| + 1)
    requires q.requestedBy == before.requestedBy
    requires a.statusFrom == Some(before.status) && a.statusTo == q.status && q.status in Transitions(before.status)
    ensures SpellsPath(trail + [a], q)
  {
    hide Transitions;
  }

  /** Taking correction `id` one step along the table, with the audit record that says so. */
  lemma StepKeepsInv(book: Book, book': Book, id: nat, q: Correction, a: Audit)
    requires CorrectionInv(book) && id < |book.corrections|
    requires book'.corrections == book.corrections[id := q] && book'.audits == book.audits + [a]
    requires a.correction == id && q.requestedBy == book.corrections[id].requestedBy
    requires a.statusFrom == Some(book.corrections[id].status) && a.statusTo == q.status
    requires q.status in Transitions(book.corrections[id].status)
    requires LengthFits(q.status, |Trail(book.audits, id)| + 1)
    requires IsIndependent(Trail(book.audits, id) + [a], q)
    ensures CorrectionInv(book')
  {
    assert CorrectionOk(book.audits, id, book.corrections[id]);
    LongerPath(Trail(book.audits, id), book.corrections[id], a, q);
    hide SpellsPath, LengthFits, IsIndependent, Transitions;
    forall k | 0 <= k < |book'.corrections|
      ensures CorrectionOk(book'.audits, k, book'.corrections[k])
    {
      TrailOfOneMore(book.audits, a, k);
      assert CorrectionOk(book.audits, k, book.corrections[k]);
    }
  }

  lemma ReviewKeepsInv(book: Book, actor: UserId, id: nat, target: CorrectionStatus)
    requires CorrectionInv(book) && DoReview(book, actor, id, target).outcome == Accepted
    requires target == ApprovedByHod || target == RejectedByHod
             || target == ApprovedByAcademicHead || target == RejectedByAcademicHead
    ensures CorrectionInv(DoReview(book, actor, id, target).book)
  {
    var book' := DoReview(book, actor, id, target).book;
    var q := book'.corrections[id];
    var a := book'.audits[|book.audits|];
    assert CorrectionOk(book.audits, id, book.corrections[id]);
    var trail := Trail(book.audits, id) + [a];
    assert trail[|trail| - 1] == a;
    StepKeepsInv(book, book', id, q, a);
  }

  lemma EscalateKeepsInv(book: Book, c: Command)
    requires CorrectionInv(book) && c.Escalate? && DoEscalate(book, c).outcome == Accepted
    ensures CorrectionInv(DoEscalate(book, c).book)
  {
    var book' := DoEscalate(book, c).book;
    var id := c.correction;
    assert CorrectionOk(book.audits, id, book.corrections[id]);
    StepKeepsInv(book, book', id, book'.corrections[id], book'.audits[|book.audits|]);
  }

  lemma ApplyKeepsInv(cfg: Config, book: Book, c: Command)
    requires CorrectionInv(book) && c.Apply? && DoApply(cfg, book, c).outcome == Accepted
    ensures CorrectionInv(DoApply(cfg, book, c).book)
  {
    var book' := DoApply(cfg, book, c).book;
    var id := c.correction;
    var q, a := book'.corrections[id], book'.audits[|book.audits|];
    assert CorrectionOk(book.audits, id, book.corrections[id]);
    var earlier := Trail(book.audits, id);
    var trail := earlier + [a];
    assert trail[|trail| - 1] == a && trail[|trail| - 2] == earlier[|earlier| - 1];
    StepKeepsInv(book, book', id, q, a);
  }

  lemma DoKeepsCorrectionInv(cfg: Config, book: Book, authorized: bool, c: Command)
    requires CorrectionInv(book)
    ensures CorrectionInv(Do(cfg, book, authorized, c).book)
  {
    OnlyAcceptedChanges(cfg, book, authorized, c);
    if Do(cfg, book, authorized, c).outcome == Accepted {
      match c
      case Request(_, _, _, _, _, _) => RequestKeepsInv(cfg, book, c);
      case HodReview(actor, id, approve) =>
        ReviewKeepsInv(book, actor, id, if approve then ApprovedByHod else RejectedByHod);
      case Escalate(_, _, _) => EscalateKeepsInv(book, c);
      case HeadReview(actor, id, approve) =>
        ReviewKeepsInv(book, actor, id, if approve then ApprovedByAcademicHead else RejectedByAcademicHead);
      case Apply(_, _) => ApplyKeepsInv(cfg, book, c);
      case _ =>
    }
  }

  lemma {:induction false} StoryCorrections(s: Story, k: nat)
    requires IsStory(s) && k < |s.books|
    ensures CorrectionInv(s.books[k])
  {
    if 0 < k {
      StoryCorrections(s, k - 1);
      assert IsNext(s, k - 1);
      DoKeepsCorrectionInv(s.cfg, s.books[k - 1], s.entries[k - 1].authorized, s.entries[k - 1].command);
    }
  }

  /**
   In every state of every run the audit trail of a correction has one to four records
   and spells a path of the transition table from `under_hod_review` to its status, even
   though escalation consults a list of its own.
   */
  lemma TrailsSpellPaths(s: Story, k: nat, id: nat)
    requires IsStory(s) && k < |s.books| && id < |s.books[k].corrections|
    ensures SpellsPath(Trail(s.books[k].audits, id), s.books[k].corrections[id])
  {
    StoryCorrections(s, k);
    assert CorrectionOk(s.books[k].audits, id, s.books[k].corrections[id]);
  }

  /** A correction blocks readiness exactly until its path reaches a status that the table does not leave. */
  lemma BlocksUntilTerminal(s: Story, k: nat, id: nat)
    requires IsStory(s) && k < |s.books| && id < |s.books[k].corrections|
    ensures var status := s.books[k].corrections[id].status;
            && (IsBlocking(status) <==> !IsTerminal(status))
            && (IsBlocking(status) <==> Transitions(status) != {})
  {
    StoryCorrections(s, k);
    assert CorrectionOk(s.books[k].audits, id, s.books[k].corrections[id]);
    assert ApprovedByHod in Transitions(UnderHodReview) && Applied in Transitions(ApprovedByHod);
    assert Applied in Transitions(ApprovedByAcademicHead);
    assert ApprovedByAcademicHead in Transitions(EscalationRequested);
  }

  /**
   An applied correction was approved in its last step but one and applied in its last,
   each time by somebody other than its requester.
   */
  lemma AppliedByOthers(s: Story, k: nat, id: nat)
    requires IsStory(s) && k < |s.books| && id < |s.books[k].corrections|
    requires s.books[k].corrections[id].status == Applied
    ensures var q, trail := s.books[k].corrections[id], Trail(s.books[k].audits, id);
            && 3 <= |trail|
            && trail[|trail| - 2].action == ReviewedAction && IsApprovedUnapplied(trail[|trail| - 2].statusTo)
            && trail[|trail| - 2].actor != q.requestedBy
            && trail[|trail| - 1].action == AppliedAction && trail[|trail| - 1].actor != q.requestedBy
            && q.reviewedBy == Some(trail[|trail| - 2].actor) && q.appliedBy == Some(trail[|trail| - 1].actor)
  {
    StoryCorrections(s, k);
    assert CorrectionOk(s.books[k].audits, id, s.books[k].corrections[id]);
  }

  // ---- What never changes ----

  /** The request itself is fixed and a terminal status is final. */
  ghost predicate SameRequest(before: Correction, after: Correction) {
    && after.(status := before.status, reviewedBy := before.reviewedBy, escalatedBy := before.escalatedBy,
              appliedBy := before.appliedBy) == before
    && (IsTerminal(before.status) ==> after == before)
  }

  ghost predicate KeepsRequest(before: Book, after: Book, id: nat) {
    && id < |before.corrections| <= |after.corrections| && before.audits <= after.audits
    && SameRequest(before.corrections[id], after.corrections[id])
  }

  lemma DoKeepsRequests(cfg: Config, book: Book, authorized: bool, c: Command, id: nat)
    requires id < |book.corrections|
    ensures KeepsRequest(book, Do(cfg, book, authorized, c).book, id)
  {
    hide Corrected, ChangedFields, StateHash, Savable;
    OnlyAcceptedChanges(cfg, book, authorized, c);
    if c.HodReview? || c.HeadReview? || c.Escalate? {
      hide SameRequest;
      MovesKeepRequests(cfg, book, authorized, c, id);
    }
  }

  lemma MovesKeepRequests(cfg: Config, book: Book, authorized: bool, c: Command, id: nat)
    requires id < |book.corrections| && (c.HodReview? || c.HeadReview? || c.Escalate?)
    ensures KeepsRequest(book, Do(cfg, book, authorized, c).book, id)
  {
  }

  lemma {:induction false} RequestsAreFixed(s: Story, i: nat, j: nat, id: nat)
    requires IsStory(s) && i <= j < |s.books| && id < |s.books[i].corrections|
    ensures KeepsRequest(s.books[i], s.books[j], id)
    decreases j
  {
    if i < j {
      hide Do;
      RequestsAreFixed(s, i, j - 1, id);
      assert IsNext(s, j - 1);
      DoKeepsRequests(s.cfg, s.books[j - 1], s.entries[j - 1].authorized, s.entries[j - 1].command, id);
    }
  }
}
