/** The applied corrections of a grade record are its complete history. */
module GradeHistory {
  import opened Options
  import opened Marks
  import opened Compilation
  import opened Gradebook

  /** The audit records of the corrections applied to one grade record, oldest first. */
  function AppliedTo(audits: seq<Audit>, record: nat): seq<Audit> {
    if audits == [] then []
    else
      var a := audits[|audits| - 1];
      AppliedTo(audits[..|audits| - 1], record) + (if a.action == AppliedAction && a.record == record then [a] else [])
  }

  /** How many corrections of the record are applied. */
  function CountApplied(corrections: seq<Correction>, record: nat): nat {
    if corrections == [] then 0
    else
      var q := corrections[|corrections| - 1];
      CountApplied(corrections[..|corrections| - 1], record)
      + (if q.status == Applied && q.record == record then 1 else 0)
  }

  predicate CorrectionsExist(applied: seq<Audit>, corrections: seq<Correction>) {
    forall k :: 0 <= k < |applied| ==> applied[k].correction < |corrections|
  }

  /** The record as submitted, with the proposals of these audit records written over it in turn. */
  function Rebuilt(cfg: Config, original: Record, applied: seq<Audit>, corrections: seq<Correction>): Record
    requires CorrectionsExist(applied, corrections)
  {
    if applied == [] then original
    else
      var n := |applied| - 1;
      Corrected(cfg, Rebuilt(cfg, original, applied[..n], corrections), corrections[applied[n].correction])
  }

  /** The list names the fields in which the two records differ, and there are some. */
  ghost predicate ListsChanges(before: Record, after: Record, changed: seq<Field>) {
    changed != [] && forall f: Field :: f in changed <==> Differs(before, after, f)
  }

  /** Audit record `k` holds the hashes of the record before and after its correction, and what that changed. */
  ghost predicate AuditFits(cfg: Config, id: nat, original: Record, applied: seq<Audit>,
                            corrections: seq<Correction>, k: nat)
    requires k < |applied| && CorrectionsExist(applied, corrections)
  {
    var before, after := Rebuilt(cfg, original, applied[..k], corrections),
                         Rebuilt(cfg, original, applied[..k + 1], corrections);
    && applied[k].before == StateHash(cfg, id, before) && applied[k].after == StateHash(cfg, id, after)
    && ListsChanges(before, after, applied[k].changed)
  }

  ghost predicate AuditsFit(cfg: Config, id: nat, original: Record, applied: seq<Audit>, corrections: seq<Correction>)
    requires CorrectionsExist(applied, corrections)
  {
    forall k :: 0 <= k < |applied| ==> AuditFits(cfg, id, original, applied, corrections, k)
  }

  ghost predicate HistoryOk(cfg: Config, book: Book, id: nat)
    requires id < |book.records| && |book.originals| == |book.records|
  {
    var applied := AppliedTo(book.audits, id);
    && CorrectionsExist(applied, book.corrections)
    && Rebuilt(cfg, book.originals[id], applied, book.corrections) == book.records[id]
    && AuditsFit(cfg, id, book.originals[id], applied, book.corrections)
    && book.originals[id].version == 1
    && CountApplied(book.corrections, id) == |applied|
  }

  ghost predicate RecordsExist(book: Book) {
    && |book.originals| == |book.records|
    && (forall i :: 0 <= i < |book.audits| ==> book.audits[i].record < |book.records|)
    && (forall i :: 0 <= i < |book.corrections| ==> book.corrections[i].record < |book.records|)
  }

  ghost predicate HistoryInv(cfg: Config, book: Book) {
    && RecordsExist(book)
    && (forall id :: 0 <= id < |book.records| ==> HistoryOk(cfg, book, id))
  }

  // ---- How the queries change ----

  lemma AppliedOfOneMore(audits: seq<Audit>, a: Audit, id: nat)
    ensures AppliedTo(audits + [a], id)
            == AppliedTo(audits, id) + (if a.action == AppliedAction && a.record == id then [a] else [])
  {
    assert (audits + [a])[..|audits + [a]| - 1] == audits;
  }

  lemma {:induction false} NothingAppliedYet(audits: seq<Audit>, id: nat)
    requires forall i :: 0 <= i < |audits| ==> audits[i].record != id
    ensures AppliedTo(audits, id) == []
  {
    if audits != [] {
      NothingAppliedYet(audits[..|audits| - 1], id);
    }
  }

  lemma {:induction false} NoneAppliedYet(corrections: seq<Correction>, id: nat)
    requires forall i :: 0 <= i < |corrections| ==> corrections[i].record != id
    ensures CountApplied(corrections, id) == 0
  {
    if corrections != [] {
      NoneAppliedYet(corrections[..|corrections| - 1], id);
    }
  }

  lemma CountOneMore(corrections: seq<Correction>, q: Correction, id: nat)
    requires q.status != Applied
    ensures CountApplied(corrections + [q], id) == CountApplied(corrections, id)
  {
    assert (corrections + [q])[..|corrections + [q]| - 1] == corrections;
  }

  lemma {:induction false} CountAfterUpdate(corrections: seq<Correction>, i: nat, q: Correction, id: nat)
    requires i < |corrections| && corrections[i].status != Applied && q.record == corrections[i].record
    ensures CountApplied(corrections[i := q], id)
            == CountApplied(corrections, id) + (if q.status == Applied && q.record == id then 1 else 0)
  {
    var n := |corrections| - 1;
    if i < n {
      CountAfterUpdate(corrections[..n], i, q, id);
      assert corrections[i := q][..n] == corrections[..n][i := q];
    } else {
      assert corrections[i := q][..n] == corrections[..n];
    }
  }

  /** The proposals are all that rebuilding reads of the corrections. */
  ghost predicate SameProposals(before: seq<Correction>, after: seq<Correction>) {
    && |before| <= |after|
    && forall i :: 0 <= i < |before| ==>
         && after[i].proposedRawScore == before[i].proposedRawScore
         && after[i].proposedScores == before[i].proposedScores
         && after[i].proposedRemarks == before[i].proposedRemarks
  }

  lemma {:induction false} RebuiltFromProposals(cfg: Config, original: Record, applied: seq<Audit>,
                                                before: seq<Correction>, after: seq<Correction>)
    requires SameProposals(before, after) && CorrectionsExist(applied, before)
    ensures Rebuilt(cfg, original, applied, before) == Rebuilt(cfg, original, applied, after)
  {
    if applied != [] {
      RebuiltFromProposals(cfg, original, applied[..|applied| - 1], before, after);
    }
  }

  lemma AuditsFitProposals(cfg: Config, id: nat, original: Record, applied: seq<Audit>,
                           before: seq<Correction>, after: seq<Correction>)
    requires SameProposals(before, after) && CorrectionsExist(applied, before)
    requires AuditsFit(cfg, id, original, applied, before)
    ensures AuditsFit(cfg, id, original, applied, after)
  {
    forall k | 0 <= k < |applied|
      ensures AuditFits(cfg, id, original, applied, after, k)
    {
      assert AuditFits(cfg, id, original, applied, before, k);
      RebuiltFromProposals(cfg, original, applied[..k], before, after);
      RebuiltFromProposals(cfg, original, applied[..k + 1], before, after);
    }
  }

  /** A record that no new correction is applied to keeps its history. */
  lemma QuietHistory(cfg: Config, book: Book, book': Book, id: nat)
    requires id < |book.records| <= |book'.records|
    requires |book.originals| == |book.records| && |book'.originals| == |book'.records|
    requires HistoryOk(cfg, book, id)
    requires SameProposals(book.corrections, book'.corrections)
    requires book'.records[id] == book.records[id] && book'.originals[id] == book.originals[id]
    requires AppliedTo(book'.audits, id) == AppliedTo(book.audits, id)
    requires CountApplied(book'.corrections, id) == CountApplied(book.corrections, id)
    ensures HistoryOk(cfg, book', id)
  {
    var applied := AppliedTo(book.audits, id);
    RebuiltFromProposals(cfg, book.originals[id], applied, book.corrections, book'.corrections);
    AuditsFitProposals(cfg, id, book.originals[id], applied, book.corrections, book'.corrections);
  }

  // ---- The commands ----

  lemma SubmitKeepsHistory(cfg: Config, book: Book, c: Command)
    requires HistoryInv(cfg, book) && c.Submit? && DoSubmit(cfg, book, c).outcome == Accepted
    ensures HistoryInv(cfg, DoSubmit(cfg, book, c).book)
  {
    var book' := DoSubmit(cfg, book, c).book;
    forall id | 0 <= id < |book'.records|
      ensures HistoryOk(cfg, book', id)
    {
      if id < |book.records| {
        QuietHistory(cfg, book, book', id);
      } else {
        NothingAppliedYet(book'.audits, id);
        NoneAppliedYet(book'.corrections, id);
      }
    }
  }

  /** One more audit record, which applies nothing to record `id`, and as many applied corrections of it as before. */
  lemma QuietAudit(cfg: Config, book: Book, book': Book, a: Audit, id: nat)
    requires id < |book.records| && |book.originals| == |book.records| == |book'.records| == |book'.originals|
    requires HistoryOk(cfg, book, id)
    requires book'.records[id] == book.records[id] && book'.originals[id] == book.originals[id]
    requires SameProposals(book.corrections, book'.corrections) && book'.audits == book.audits + [a]
    requires a.action != AppliedAction || a.record != id
    requires CountApplied(book'.corrections, id) == CountApplied(book.corrections, id)
    ensures HistoryOk(cfg, book', id)
  {
    AppliedOfOneMore(book.audits, a, id);
    QuietHistory(cfg, book, book', id);
  }

  /** A request adds a correction that is not applied, and an audit record that applies nothing. */
  lemma NewCorrectionKeepsHistory(cfg: Config, book: Book, book': Book, q: Correction, a: Audit)
    requires HistoryInv(cfg, book) && book'.records == book.records && book'.originals == book.originals
    requires book'.corrections == book.corrections + [q] && book'.audits == book.audits + [a]
    requires q.status != Applied && a.action != AppliedAction
    requires q.record < |book.records| && a.record < |book.records|
    ensures HistoryInv(cfg, book')
  {
    forall id | 0 <= id < |book'.records|
      ensures HistoryOk(cfg, book', id)
    {
      assert HistoryOk(cfg, book, id);
      CountOneMore(book.corrections, q, id);
      QuietAudit(cfg, book, book', a, id);
    }
  }

  /** Only the status and the people of a correction change. */
  ghost predicate SameProposal(before: Correction, after: Correction) {
    && after.record == before.record
    && after.proposedRawScore == before.proposedRawScore
    && after.proposedScores == before.proposedScores
    && after.proposedRemarks == before.proposedRemarks
  }

  /** A review or an escalation moves a correction that is not applied and applies nothing. */
  lemma MoveKeepsHistory(cfg: Config, book: Book, book': Book, i: nat, q: Correction, a: Audit)
    requires HistoryInv(cfg, book) && book'.records == book.records && book'.originals == book.originals
    requires i < |book.corrections| && SameProposal(book.corrections[i], q)
    requires book'.corrections == book.corrections[i := q] && book'.audits == book.audits + [a]
    requires q.status != Applied && book.corrections[i].status != Applied
    requires a.action != AppliedAction && a.record == q.record
    ensures HistoryInv(cfg, book')
  {
    forall id | 0 <= id < |book'.records|
      ensures HistoryOk(cfg, book', id)
    {
      assert HistoryOk(cfg, book, id);
      CountAfterUpdate(book.corrections, i, q, id);
      QuietAudit(cfg, book, book', a, id);
    }
  }

  lemma AuditStays(cfg: Config, id: nat, original: Record, before: seq<Audit>, a: Audit,
                   corrections: seq<Correction>, k: nat)
    requires CorrectionsExist(before + [a], corrections) && CorrectionsExist(before, corrections)
    requires k < |before| && AuditFits(cfg, id, original, before, corrections, k)
    ensures AuditFits(cfg, id, original, before + [a], corrections, k)
  {
    assert (before + [a])[..k] == before[..k] && (before + [a])[..k + 1] == before[..k + 1];
  }

  lemma AuditsOfOneMore(cfg: Config, id: nat, original: Record, before: seq<Audit>, a: Audit,
                        corrections: seq<Correction>)
    requires CorrectionsExist(before, corrections) && a.correction < |corrections|
    requires AuditsFit(cfg, id, original, before, corrections)
    requires var r := Rebuilt(cfg, original, before, corrections);
             var r' := Corrected(cfg, r, corrections[a.correction]);
             a.before == StateHash(cfg, id, r) && a.after == StateHash(cfg, id, r') && ListsChanges(r, r', a.changed)
    ensures AuditsFit(cfg, id, original, before + [a], corrections)
    ensures Rebuilt(cfg, original, before + [a], corrections)
            == Corrected(cfg, Rebuilt(cfg, original, before, corrections), corrections[a.correction])
  {
    hide Corrected, StateHash;
    var after, n := before + [a], |before|;
    assert after[..n] == before && after[..n + 1] == after;
    forall k | 0 <= k < n
      ensures AuditFits(cfg, id, original, after, corrections, k)
    {
      AuditStays(cfg, id, original, before, a, corrections, k);
    }
    assert AuditFits(cfg, id, original, after, corrections, n);
  }

  /** An application writes the proposal over the record and records both hashes. */
  lemma ApplicationExtendsHistory(cfg: Config, book: Book, book': Book, i: nat, q: Correction, a: Audit)
    requires |book.originals| == |book.records| && i < |book.corrections| && q.record < |book.records|
    requires HistoryOk(cfg, book, q.record) && SameProposal(book.corrections[i], q)
    requires book.corrections[i].status != Applied && q.status == Applied
    requires book'.originals == book.originals
    requires book'.records == book.records[q.record := Corrected(cfg, book.records[q.record], q)]
    requires book'.corrections == book.corrections[i := q] && book'.audits == book.audits + [a]
    requires a.action == AppliedAction && a.record == q.record && a.correction == i
    requires a.before == StateHash(cfg, q.record, book.records[q.record])
    requires a.after == StateHash(cfg, q.record, book'.records[q.record])
    requires ListsChanges(book.records[q.record], book'.records[q.record], a.changed)
    ensures HistoryOk(cfg, book', q.record)
  {
    hide Corrected, StateHash, ListsChanges, AuditsFit, AuditFits;
    var id := q.record;
    var before, original := AppliedTo(book.audits, id), book.originals[id];
    AppliedOfOneMore(book.audits, a, id);
    CountAfterUpdate(book.corrections, i, q, id);
    RebuiltFromProposals(cfg, original, before, book.corrections, book'.corrections);
    AuditsFitProposals(cfg, id, original, before, book.corrections, book'.corrections);
    AuditsOfOneMore(cfg, id, original, before, a, book'.corrections);
  }

  lemma ApplicationKeepsHistory(cfg: Config, book: Book, book': Book, i: nat, q: Correction, a: Audit)
    requires HistoryInv(cfg, book) && i < |book.corrections| && q.record < |book.records|
    requires SameProposal(book.corrections[i], q) && book.corrections[i].status != Applied && q.status == Applied
    requires book'.originals == book.originals
    requires book'.records == book.records[q.record := Corrected(cfg, book.records[q.record], q)]
    requires book'.corrections == book.corrections[i := q] && book'.audits == book.audits + [a]
    requires a.action == AppliedAction && a.record == q.record && a.correction == i
    requires a.before == StateHash(cfg, q.record, book.records[q.record])
    requires a.after == StateHash(cfg, q.record, book'.records[q.record])
    requires ListsChanges(book.records[q.record], book'.records[q.record], a.changed)
    ensures HistoryInv(cfg, book')
  {
    forall id | 0 <= id < |book'.records|
      ensures HistoryOk(cfg, book', id)
    {
      if id == q.record {
        ApplicationExtendsHistory(cfg, book, book', i, q, a);
      } else {
        assert HistoryOk(cfg, book, id);
        CountAfterUpdate(book.corrections, i, q, id);
        QuietAudit(cfg, book, book', a, id);
      }
    }
  }

  lemma QuietKeepsHistory(cfg: Config, book: Book, book': Book)
    requires HistoryInv(cfg, book)
    requires book'.records == book.records && book'.originals == book.originals
    requires book'.corrections == book.corrections && book'.audits == book.audits
    ensures HistoryInv(cfg, book')
  {
    forall id | 0 <= id < |book'.records|
      ensures HistoryOk(cfg, book', id)
    {
      assert HistoryOk(cfg, book, id);
    }
  }

  lemma RequestKeepsHistory(cfg: Config, book: Book, c: Command)
    requires HistoryInv(cfg, book) && c.Request? && DoRequest(cfg, book, c).outcome == Accepted
    ensures HistoryInv(cfg, DoRequest(cfg, book, c).book)
  {
    var book' := DoRequest(cfg, book, c).book;
    NewCorrectionKeepsHistory(cfg, book, book', book'.corrections[|book.corrections|], book'.audits[|book.audits|]);
  }

  lemma ReviewKeepsHistory(cfg: Config, book: Book, actor: UserId, id: nat, target: CorrectionStatus)
    requires HistoryInv(cfg, book) && target != Applied && DoReview(book, actor, id, target).outcome == Accepted
    ensures HistoryInv(cfg, DoReview(book, actor, id, target).book)
  {
    var book' := DoReview(book, actor, id, target).book;
    MoveKeepsHistory(cfg, book, book', id, book'.corrections[id], book'.audits[|book.audits|]);
  }

  lemma EscalateKeepsHistory(cfg: Config, book: Book, c: Command)
    requires HistoryInv(cfg, book) && c.Escalate? && DoEscalate(book, c).outcome == Accepted
    ensures HistoryInv(cfg, DoEscalate(book, c).book)
  {
    var book' := DoEscalate(book, c).book;
    MoveKeepsHistory(cfg, book, book', c.correction, book'.corrections[c.correction], book'.audits[|book.audits|]);
  }

  lemma ApplyKeepsHistory(cfg: Config, book: Book, c: Command)
    requires HistoryInv(cfg, book) && c.Apply? && DoApply(cfg, book, c).outcome == Accepted
    ensures HistoryInv(cfg, DoApply(cfg, book, c).book)
  {
    var book' := DoApply(cfg, book, c).book;
    var id := c.correction;
    var record := book.corrections[id].record;
    ChangedFieldsAreTheDifference(cfg, book.records[record], book.corrections[id]);
    ApplicationKeepsHistory(cfg, book, book', id, book'.corrections[id], book'.audits[|book.audits|]);
  }

  lemma DoKeepsHistory(cfg: Config, book: Book, authorized: bool, c: Command)
    requires HistoryInv(cfg, book)
    ensures HistoryInv(cfg, Do(cfg, book, authorized, c).book)
  {
    OnlyAcceptedChanges(cfg, book, authorized, c);
    if Do(cfg, book, authorized, c).outcome == Accepted {
      match c
      case Submit(_, _, _, _, _) => SubmitKeepsHistory(cfg, book, c);
      case Request(_, _, _, _, _, _) => RequestKeepsHistory(cfg, book, c);
      case HodReview(actor, id, approve) =>
        ReviewKeepsHistory(cfg, book, actor, id, if approve then ApprovedByHod else RejectedByHod);
      case Escalate(_, _, _) => EscalateKeepsHistory(cfg, book, c);
      case HeadReview(actor, id, approve) =>
        ReviewKeepsHistory(cfg, book, actor, id, if approve then ApprovedByAcademicHead else RejectedByAcademicHead);
      case Apply(_, _) => ApplyKeepsHistory(cfg, book, c);
      case SaveDraft(_, _, _, _, _) => QuietKeepsHistory(cfg, book, DoSaveDraft(cfg, book, c).book);
      case CompileRun(_) => QuietKeepsHistory(cfg, book, DoCompile(cfg, book, c).book);
    }
  }

  lemma {:induction false} StoryHistory(s: Story, k: nat)
    requires IsStory(s) && k < |s.books|
    ensures HistoryInv(s.cfg, s.books[k])
  {
    if 0 < k {
      StoryHistory(s, k - 1);
      assert IsNext(s, k - 1);
      DoKeepsHistory(s.cfg, s.books[k - 1], s.entries[k - 1].authorized, s.entries[k - 1].command);
    }
  }

  lemma {:induction false} VersionCounts(cfg: Config, original: Record, applied: seq<Audit>,
                                         corrections: seq<Correction>)
    requires CorrectionsExist(applied, corrections)
    ensures Rebuilt(cfg, original, applied, corrections).version == original.version + |applied|
  {
    if applied != [] {
      VersionCounts(cfg, original, applied[..|applied| - 1], corrections);
    }
  }

  /**
   In every state of every run the applied audit records of a grade record are its whole
   history.  Their number is the number of its applied corrections and one less than its
   version; writing their proposals over the submitted record gives the present one; their
   hashes form a chain from the submitted record to the present one; and each lists the
   fields that differ before and after it.
   */
  lemma HistoryIsAChain(s: Story, k: nat, id: nat)
    requires IsStory(s) && k < |s.books| && id < |s.books[k].records|
    ensures var book := s.books[k];
            var applied := AppliedTo(book.audits, id);
            && |book.originals| == |book.records|
            && CorrectionsExist(applied, book.corrections)
            && book.records[id].version == 1 + |applied| == 1 + CountApplied(book.corrections, id)
            && book.records[id] == Rebuilt(s.cfg, book.originals[id], applied, book.corrections)
            && (applied == [] ==> book.records[id] == book.originals[id])
            && (applied != [] ==> applied[0].before == StateHash(s.cfg, id, book.originals[id]))
            && (forall n :: 1 <= n < |applied| ==> applied[n].before == applied[n - 1].after)
            && (applied != [] ==> applied[|applied| - 1].after == StateHash(s.cfg, id, book.records[id]))
            && (forall n :: 0 <= n < |applied| ==>
                  ListsChanges(Rebuilt(s.cfg, book.originals[id], applied[..n], book.corrections),
                               Rebuilt(s.cfg, book.originals[id], applied[..n + 1], book.corrections),
                               applied[n].changed))
  {
    StoryHistory(s, k);
    var book := s.books[k];
    assert HistoryOk(s.cfg, book, id);
    var applied := AppliedTo(book.audits, id);
    VersionCounts(s.cfg, book.originals[id], applied, book.corrections);
    assert applied[..|applied|] == applied;
    forall n | 1 <= n < |applied|
      ensures applied[n].before == applied[n - 1].after
    {
      assert AuditFits(s.cfg, id, book.originals[id], applied, book.corrections, n - 1);
      assert AuditFits(s.cfg, id, book.originals[id], applied, book.corrections, n);
      assert applied[..n - 1 + 1] == applied[..n];
    }
    forall n | 0 <= n < |applied|
      ensures ListsChanges(Rebuilt(s.cfg, book.originals[id], applied[..n], book.corrections),
                           Rebuilt(s.cfg, book.originals[id], applied[..n + 1], book.corrections), applied[n].changed)
    {
      assert AuditFits(s.cfg, id, book.originals[id], applied, book.corrections, n);
    }
    if applied != [] {
      assert AuditFits(s.cfg, id, book.originals[id], applied, book.corrections, 0);
      assert AuditFits(s.cfg, id, book.originals[id], applied, book.corrections, |applied| - 1);
    }
  }

  // ---- What the present record says ----

  predicate HasProposal(q: Correction, f: Field) {
    match f
    case ComponentScores => q.proposedScores != map[]
    case RawScore => q.proposedRawScore.Some?
    case Remarks => q.proposedRemarks != ""
  }

  /** The record has the proposed value in this field. */
  predicate ShowsProposal(r: Record, q: Correction, f: Field)
    requires HasProposal(q, f)
  {
    match f
    case ComponentScores => r.scores == q.proposedScores
    case RawScore => r.rawScore == q.proposedRawScore.value
    case Remarks => r.remarks == q.proposedRemarks
  }

  /** After the first `n`, none of these applications had a proposal for the field. */
  predicate NoneAfter(applied: seq<Audit>, corrections: seq<Correction>, n: nat, f: Field)
    requires CorrectionsExist(applied, corrections)
  {
    forall k :: n <= k < |applied| ==> !HasProposal(corrections[applied[k].correction], f)
  }

  lemma {:induction false} RebuiltSinceProposal(cfg: Config, original: Record, applied: seq<Audit>,
                                                corrections: seq<Correction>, n: nat, f: Field)
    requires CorrectionsExist(applied, corrections) && n <= |applied| && NoneAfter(applied, corrections, n, f)
    requires 0 < n ==> HasProposal(corrections[applied[n - 1].correction], f)
    ensures var r := Rebuilt(cfg, original, applied, corrections);
            if n == 0 then !Differs(original, r, f) else ShowsProposal(r, corrections[applied[n - 1].correction], f)
    decreases |applied|
  {
    if n < |applied| {
      RebuiltSinceProposal(cfg, original, applied[..|applied| - 1], corrections, n, f);
    }
  }

  /** The field has the value of the last of these applications that proposed one for it, or the submitted one. */
  ghost predicate IsLastProposal(original: Record, present: Record, applied: seq<Audit>,
                                 corrections: seq<Correction>, f: Field)
    requires CorrectionsExist(applied, corrections)
  {
    && (NoneAfter(applied, corrections, 0, f) ==> !Differs(original, present, f))
    && forall n :: 0 <= n < |applied| && HasProposal(corrections[applied[n].correction], f)
                   && NoneAfter(applied, corrections, n + 1, f) ==>
         ShowsProposal(present, corrections[applied[n].correction], f)
  }

  lemma RebuiltIsLastProposal(cfg: Config, original: Record, applied: seq<Audit>, corrections: seq<Correction>,
                              f: Field)
    requires CorrectionsExist(applied, corrections)
    ensures IsLastProposal(original, Rebuilt(cfg, original, applied, corrections), applied, corrections, f)
  {
    hide Rebuilt, NoneAfter, Differs;
    if NoneAfter(applied, corrections, 0, f) {
      RebuiltSinceProposal(cfg, original, applied, corrections, 0, f);
    }
    forall n | 0 <= n < |applied| && HasProposal(corrections[applied[n].correction], f)
               && NoneAfter(applied, corrections, n + 1, f)
      ensures ShowsProposal(Rebuilt(cfg, original, applied, corrections), corrections[applied[n].correction], f)
    {
      RebuiltSinceProposal(cfg, original, applied, corrections, n + 1, f);
    }
  }

  /**
   Each of the three fields of a record has the value of the last applied correction that
   proposed one for it, whatever later corrections did to the other fields, and the
   submitted value if there was none.
   */
  lemma FieldsAreLastProposals(s: Story, k: nat, id: nat, f: Field)
    requires IsStory(s) && k < |s.books| && id < |s.books[k].records|
    ensures var book := s.books[k];
            var applied := AppliedTo(book.audits, id);
            && |book.originals| == |book.records| && CorrectionsExist(applied, book.corrections)
            && IsLastProposal(book.originals[id], book.records[id], applied, book.corrections, f)
  {
    hide IsStory, Rebuilt, IsLastProposal, ListsChanges;
    HistoryIsAChain(s, k, id);
    var book := s.books[k];
    RebuiltIsLastProposal(s.cfg, book.originals[id], AppliedTo(book.audits, id), book.corrections, f);
  }
}
