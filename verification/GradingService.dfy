/**
 The grading commands as they run: each method is one transaction over the tables.  Its
 contract is the command's effect in `Gradebook`, so every property proved there of
 stories holds of any sequence of calls, and each call keeps all of their invariants.
 */
module GradingService {
  import opened Options
  import opened Text
  import opened Marks
  import opened Compilation
  import opened Gradebook
  import opened SubmissionProofs
  import opened DraftProofs
  import opened CorrectionPaths
  import opened GradeHistory
  import opened CacheProofs

  ghost predicate AllInvariants(cfg: Config, book: Book) {
    && SubmissionInv(cfg, book)
    && DraftInv(book.drafts)
    && CorrectionInv(book)
    && HistoryInv(cfg, book)
    && CacheInv(cfg, book)
  }

  lemma DoKeepsAll(cfg: Config, book: Book, authorized: bool, c: Command)
    requires AllInvariants(cfg, book)
    ensures AllInvariants(cfg, Do(cfg, book, authorized, c).book)
  {
    DoKeepsSubmissionInv(cfg, book, authorized, c);
    DoKeepsDrafts(cfg, book, authorized, c);
    DoKeepsCorrectionInv(cfg, book, authorized, c);
    DoKeepsHistory(cfg, book, authorized, c);
    DoKeepsCache(cfg, book, authorized, c);
  }

  class Service {
    const cfg: Config
    var batches: seq<Batch>
    var drafts: seq<Draft>
    var records: seq<Record>
    ghost var originals: seq<Record>
    var corrections: seq<Correction>
    var audits: seq<Audit>
    var runs: seq<Run>

    ghost function Tables(): Book
      reads this
    {
      Book(batches, drafts, records, originals, corrections, audits, runs)
    }

    ghost predicate Valid()
      reads this
    {
      AllInvariants(cfg, Tables())
    }

    constructor (cfg: Config)
      ensures this.cfg == cfg && Tables() == EMPTY && Valid()
    {
      this.cfg := cfg;
      batches, drafts, records, originals := [], [], [], [];
      corrections, audits, runs := [], [], [];
    }

    // ---- Drafts ----

    method SaveGradeDraft(authorized: bool, teacher: UserId, assessment: nat, rows: seq<Row>,
                          draftVersion: Option<int>, idempotencyKey: string) returns (outcome: Outcome)
      requires Valid()
      modifies `drafts
      ensures var c := SaveDraft(teacher, assessment, rows, draftVersion, idempotencyKey);
              Reply(Tables(), outcome) == Do(cfg, old(Tables()), authorized, c)
      ensures Valid()
    {
      hide SubmissionInv, DraftInv, CorrectionInv, HistoryInv, CacheInv;
      ghost var c := SaveDraft(teacher, assessment, rows, draftVersion, idempotencyKey);
      DoKeepsAll(cfg, Tables(), authorized, c);
      var key := Strip(idempotencyKey);
      if !authorized || key == "" || assessment !in cfg.assessments {
        return Refused;
      }
      var a, hash := cfg.assessments[assessment], cfg.payloadHash(rows);
      var stored := DraftByKey(drafts, key);
      DraftByKeyFinds(drafts, key);
      if stored.Some? {
        var d := drafts[stored.value];
        if d.assessment != assessment || d.teacher != teacher || !SamePayload(d.payloadHash, hash) {
          return Refused;
        }
        return Replayed(stored.value);
      }
      var open := OpenDraft(drafts, assessment, teacher);
      OpenDraftFinds(drafts, assessment, teacher);
      if draftVersion.Some? && open.Some? && draftVersion.value != drafts[open.value].version {
        return Refused;
      }
      var normalized := ValidateGradeRows(rows, a.roster, a.maxScore, a.components, false);
      if normalized.Rejected? {
        return Refused;
      }
      if open == None {
        drafts := drafts + [Draft(assessment, teacher, key, hash, 1, Open, normalized.value,
                                  [Save(key, normalized.value)])];
      } else {
        var d := drafts[open.value];
        d := d.(version := d.version + 1, key := key, payloadHash := hash);
        d := d.(rows := normalized.value, saves := d.saves + [Save(key, normalized.value)]);
        drafts := drafts[open.value := d];
      }
      outcome := Accepted;
    }

    // ---- Submission ----

    method InsertRecords(marks: seq<MarkRow>, assessment: nat, batch: nat)
      requires forall i :: 0 <= i < |marks| ==> marks[i].rawScore.Some?
      modifies `records, `originals
      ensures records == old(records) + NewRecords(marks, assessment, batch)
      ensures originals == old(originals) + NewRecords(marks, assessment, batch)
    {
      var created: seq<Record> := [];
      for i := 0 to |marks|
        invariant |created| == i
        invariant forall k :: 0 <= k < i ==> created[k] == NewRecords(marks, assessment, batch)[k]
      {
        created := created + [Record(assessment, batch, marks[i].studentId, marks[i].rawScore.value, None,
                                     marks[i].scores, marks[i].remarks, 1)];
      }
      assert created == NewRecords(marks, assessment, batch);
      records := records + created;
      originals := originals + created;
    }

    method CloseOpenDrafts(assessment: nat, teacher: UserId)
      modifies `drafts
      ensures drafts == CloseDrafts(old(drafts), assessment, teacher)
    {
      for i := 0 to |drafts|
        invariant |drafts| == |old(drafts)|
        invariant drafts[..i] == CloseDrafts(old(drafts), assessment, teacher)[..i]
        invariant drafts[i..] == old(drafts)[i..]
      {
        assert drafts[i] == old(drafts)[i];
        if IsOpenFor(drafts[i], assessment, teacher) {
          drafts := drafts[i := drafts[i].(status := Closed)];
        }
      }
    }

    method SubmitGradeBatch(authorized: bool, teacher: UserId, assessment: nat, rows: seq<Row>,
                            idempotencyKey: string, confirmed: bool) returns (outcome: Outcome)
      requires Valid()
      modifies `batches, `records, `originals, `drafts
      ensures var c := Submit(teacher, assessment, rows, idempotencyKey, confirmed);
              Reply(Tables(), outcome) == Do(cfg, old(Tables()), authorized, c)
      ensures Valid()
    {
      ghost var c := Submit(teacher, assessment, rows, idempotencyKey, confirmed);
      DoKeepsAll(cfg, Tables(), authorized, c);
      var key := Strip(idempotencyKey);
      if !authorized || key == "" || assessment !in cfg.assessments {
        return Refused;
      }
      var a, hash := cfg.assessments[assessment], cfg.payloadHash(rows);
      var stored := BatchByKey(batches, key);
      BatchByKeyFinds(batches, key);
      if stored.Some? {
        var b := batches[stored.value];
        if b.assessment != assessment || b.teacher != teacher || !SamePayload(b.payloadHash, hash) {
          return Refused;
        }
        return Replayed(stored.value);
      }
      if HasBatch(batches, assessment, teacher) || !confirmed {
        return Refused;
      }
      var normalized := ValidateGradeRows(rows, a.roster, a.maxScore, a.components, true);
      if normalized.Rejected? || !Insertable(records, normalized.value, assessment) {
        return Refused;
      }
      var marks := normalized.value;
      InsertRecords(marks, assessment, |batches|);
      batches := batches + [Batch(assessment, teacher, key, hash, |marks|)];
      CloseOpenDrafts(assessment, teacher);
      outcome := Accepted;
    }

    // ---- Corrections ----

    method CreateCorrectionRequest(authorized: bool, actor: UserId, record: nat, reason: string,
                                   rawScore: Option<int>, scores: Scores, remarks: string) returns (outcome: Outcome)
      requires Valid()
      modifies `corrections, `audits
      ensures var c := Request(actor, record, reason, rawScore, scores, remarks);
              Reply(Tables(), outcome) == Do(cfg, old(Tables()), authorized, c)
      ensures Valid()
    {
      DoKeepsAll(cfg, Tables(), authorized, Request(actor, record, reason, rawScore, scores, remarks));
      if !authorized || record >= |records| || records[record].assessment !in cfg.assessments {
        return Refused;
      }
      var maximum := cfg.assessments[records[record].assessment].maxScore;
      if Strip(reason) == "" || (rawScore.Some? && CheckBounds(rawScore.value, maximum).Some?) {
        return Refused;
      }
      var oldHash := StateHash(cfg, record, records[record]);
      var q := Correction(record, actor, oldHash, rawScore, scores, remarks, UnderHodReview, None, None, None);
      corrections := corrections + [q];
      AuditCorrection(|corrections| - 1, actor, RequestedAction, None, oldHash, "", []);
      outcome := Accepted;
    }

    /** Write the audit record of the correction as it now stands. */
    method AuditCorrection(id: nat, actor: UserId, action: AuditAction, statusFrom: Option<CorrectionStatus>,
                           before: string, after: string, changed: seq<Field>)
      requires id < |corrections|
      modifies `audits
      ensures audits == old(audits)
                        + [Audit(id, corrections[id].record, actor, action, statusFrom, corrections[id].status,
                                 before, after, changed)]
    {
      var q := corrections[id];
      audits := audits + [Audit(id, q.record, actor, action, statusFrom, q.status, before, after, changed)];
    }

    /** Both reviews, given the status the decision asks for. */
    method Review(authorized: bool, actor: UserId, id: nat, target: CorrectionStatus) returns (outcome: Outcome)
      modifies `corrections, `audits
      ensures Reply(Tables(), outcome)
              == if authorized then DoReview(old(Tables()), actor, id, target) else Reply(old(Tables()), Refused)
    {
      if !authorized || id >= |corrections| || corrections[id].requestedBy == actor {
        return Refused;
      }
      var statusFrom := corrections[id].status;
      if !CanTransition(statusFrom, target) {
        return Refused;
      }
      corrections := corrections[id := corrections[id].(status := target, reviewedBy := Some(actor))];
      AuditCorrection(id, actor, ReviewedAction, Some(statusFrom), "", "", []);
      outcome := Accepted;
    }

    method ReviewCorrectionAsHod(authorized: bool, actor: UserId, id: nat, approve: bool) returns (outcome: Outcome)
      requires Valid()
      modifies `corrections, `audits
      ensures Reply(Tables(), outcome) == Do(cfg, old(Tables()), authorized, HodReview(actor, id, approve))
      ensures Valid()
    {
      DoKeepsAll(cfg, Tables(), authorized, HodReview(actor, id, approve));
      outcome := Review(authorized, actor, id, if approve then ApprovedByHod else RejectedByHod);
    }

    method ReviewCorrectionAsAcademicHead(authorized: bool, actor: UserId, id: nat, approve: bool)
      returns (outcome: Outcome)
      requires Valid()
      modifies `corrections, `audits
      ensures Reply(Tables(), outcome) == Do(cfg, old(Tables()), authorized, HeadReview(actor, id, approve))
      ensures Valid()
    {
      DoKeepsAll(cfg, Tables(), authorized, HeadReview(actor, id, approve));
      outcome := Review(authorized, actor, id, if approve then ApprovedByAcademicHead else RejectedByAcademicHead);
    }

    method EscalateCorrectionRequest(authorized: bool, actor: UserId, id: nat, reason: string)
      returns (outcome: Outcome)
      requires Valid()
      modifies `corrections, `audits
      ensures Reply(Tables(), outcome) == Do(cfg, old(Tables()), authorized, Escalate(actor, id, reason))
      ensures Valid()
    {
      DoKeepsAll(cfg, Tables(), authorized, Escalate(actor, id, reason));
      if !authorized || id >= |corrections| {
        return Refused;
      }
      var statusFrom := corrections[id].status;
      if !CanEscalate(statusFrom, reason) {
        return Refused;
      }
      corrections := corrections[id := corrections[id].(status := EscalationRequested, escalatedBy := Some(actor))];
      AuditCorrection(id, actor, EscalatedAction, Some(statusFrom), "", "", []);
      outcome := Accepted;
    }

    method MarkRunsStale(assessment: nat)
      modifies `runs
      ensures runs == StaleRuns(old(runs), assessment)
    {
      for i := 0 to |runs|
        invariant |runs| == |old(runs)|
        invariant runs[..i] == StaleRuns(old(runs), assessment)[..i]
        invariant runs[i..] == old(runs)[i..]
      {
        assert runs[i] == old(runs)[i];
        if runs[i].assessment == assessment {
          runs := runs[i := runs[i].(status := Stale)];
        }
      }
    }

    /** `correction_changed_fields`: the sorted names of what the application of the proposal will change. */
    method CorrectionChangedFields(r: Record, q: Correction) returns (fields: seq<Field>)
      ensures forall f: Field :: f in fields <==> Differs(r, Corrected(cfg, r, q), f)
      ensures forall i, j :: 0 <= i < j < |fields| ==> FieldRank(fields[i]) < FieldRank(fields[j])
      ensures fields == ChangedFields(r, q)
    {
      ChangedFieldsAreTheDifference(cfg, r, q);
      fields := [];
      if q.proposedScores != map[] && r.scores != q.proposedScores {
        fields := fields + [ComponentScores];
      }
      if q.proposedRawScore.Some? && r.rawScore != q.proposedRawScore.value {
        fields := fields + [RawScore];
      }
      if q.proposedRemarks != "" && r.remarks != q.proposedRemarks {
        fields := fields + [Remarks];
      }
    }

    /** Write the proposal over the record, or refuse. */
    method ApplyProposal(actor: UserId, id: nat) returns (outcome: Outcome)
      requires id < |corrections|
      modifies `corrections, `audits, `records, `runs
      ensures Reply(Tables(), outcome) == DoApply(cfg, old(Tables()), Apply(actor, id))
    {
      var q := corrections[id];
      if !IsApprovedUnapplied(q.status) || q.requestedBy == actor || q.record >= |records| {
        return Refused;
      }
      var r := records[q.record];
      var before := StateHash(cfg, q.record, r);
      var changed := CorrectionChangedFields(r, q);
      if changed == [] {
        return Refused;
      }
      r := Corrected(cfg, r, q);
      if r.assessment !in cfg.assessments || CheckBounds(r.rawScore, cfg.assessments[r.assessment].maxScore).Some?
         || r.student !in cfg.assessments[r.assessment].roster
      {
        return Refused;
      }
      records := records[q.record := r];
      MarkRunsStale(r.assessment);
      corrections := corrections[id := q.(status := Applied, appliedBy := Some(actor))];
      AuditCorrection(id, actor, AppliedAction, Some(q.status), before, StateHash(cfg, q.record, r), changed);
      outcome := Accepted;
    }

    method ApplyApprovedCorrection(authorized: bool, actor: UserId, id: nat) returns (outcome: Outcome)
      requires Valid()
      modifies `corrections, `audits, `records, `runs
      ensures Reply(Tables(), outcome) == Do(cfg, old(Tables()), authorized, Apply(actor, id))
      ensures Valid()
    {
      DoKeepsAll(cfg, Tables(), authorized, Apply(actor, id));
      if !authorized || id >= |corrections| {
        return Refused;
      }
      outcome := ApplyProposal(actor, id);
    }

    // ---- Compilation ----

    method SubmittedRecords(assessment: nat) returns (those: seq<Record>)
      ensures those == RecordsOf(records, assessment)
    {
      those := [];
      for i := 0 to |records|
        invariant those == RecordsOf(records[..i], assessment)
      {
        assert records[..i + 1][..i] == records[..i];
        if records[i].assessment == assessment {
          those := those + [records[i]];
        }
      }
      assert records[..|records|] == records;
    }

    method CompileAssessment(authorized: bool, assessment: nat) returns (outcome: Outcome)
      requires Valid()
      modifies `runs
      ensures Reply(Tables(), outcome) == Do(cfg, old(Tables()), authorized, CompileRun(assessment))
      ensures Valid()
    {
      DoKeepsAll(cfg, Tables(), authorized, CompileRun(assessment));
      if !authorized || assessment !in cfg.assessments {
        return Refused;
      }
      var submitted := SubmittedRecords(assessment);
      var compiled := CompileRecords(submitted, cfg.assessments[assessment]);
      if compiled == None {
        return Refused;
      }
      MarkRunsStale(assessment);
      runs := runs + [Run(assessment, compiled.value.status, compiled.value, |records|)];
      outcome := Accepted;
    }
  }
}
