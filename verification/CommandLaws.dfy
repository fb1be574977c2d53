/** When each grading command is accepted, and what an accepted one writes, field by field. */
module CommandLaws {
  import opened Options
  import opened Text
  import opened Marks
  import opened EntryLaws
  import opened Compilation
  import opened Gradebook
  import opened DraftProofs
  import C = CacheProofs

  /** The command is accepted exactly on this condition, and has no effect otherwise. */
  ghost predicate AcceptedIff(cfg: Config, book: Book, authorized: bool, c: Command, condition: bool) {
    var reply := Do(cfg, book, authorized, c);
    && (reply.outcome == Accepted <==> authorized && condition)
    && (reply.outcome != Accepted ==> reply.outcome == Refused && reply.book == book)
  }

  // ---- Requests ----

  ghost predicate MayRequest(cfg: Config, book: Book, c: Command)
    requires c.Request?
  {
    && c.record < |book.records| && book.records[c.record].assessment in cfg.assessments
    && !AllSpaces(c.reason)
    && (c.rawScore.Some? ==>
          IsWithin(c.rawScore.value, cfg.assessments[book.records[c.record].assessment].maxScore))
  }

  lemma RequestOutcome(cfg: Config, book: Book, authorized: bool, c: Command)
    requires c.Request?
    ensures AcceptedIff(cfg, book, authorized, c, MayRequest(cfg, book, c))
    ensures Do(cfg, book, authorized, c).outcome == Accepted ==>
              var r := book.records[c.record];
              var hash := cfg.stateHash(GradeState(c.record, r.rawScore, r.scores, r.remarks, r.version));
              Do(cfg, book, authorized, c).book
              == book.(corrections := book.corrections + [Correction(c.record, c.actor, hash, c.rawScore, c.scores,
                                                                     c.remarks, UnderHodReview, None, None, None)],
                       audits := book.audits + [Audit(|book.corrections|, c.record, c.actor, RequestedAction, None,
                                                      UnderHodReview, hash, "", [])])
  {
    StripsToNothing(c.reason);
  }

  // ---- Reviews and escalation ----

  ghost predicate IsMoved(before: Book, after: Book, id: nat, q: Correction, actor: UserId, action: AuditAction)
    requires id < |before.corrections|
  {
    && |after.corrections| == |before.corrections| && after.corrections[id] == q
    && (forall i :: 0 <= i < |before.corrections| && i != id ==> after.corrections[i] == before.corrections[i])
    && after.audits == before.audits + [Audit(id, before.corrections[id].record, actor, action,
                                              Some(before.corrections[id].status), q.status, "", "", [])]
    && after.batches == before.batches && after.drafts == before.drafts && after.records == before.records
    && after.originals == before.originals && after.runs == before.runs
  }

  /** The head of department decides what is requested or under review, for others than themselves. */
  lemma HodReviewOutcome(cfg: Config, book: Book, authorized: bool, actor: UserId, id: nat, approve: bool)
    ensures AcceptedIff(cfg, book, authorized, HodReview(actor, id, approve),
                        && id < |book.corrections| && book.corrections[id].requestedBy != actor
                        && (book.corrections[id].status == Requested || book.corrections[id].status == UnderHodReview))
    ensures Do(cfg, book, authorized, HodReview(actor, id, approve)).outcome == Accepted ==>
              IsMoved(book, Do(cfg, book, authorized, HodReview(actor, id, approve)).book, id,
                      book.corrections[id].(
                        status := if approve then ApprovedByHod else RejectedByHod,
                        reviewedBy := Some(actor)), actor, ReviewedAction)
  {
  }

  /** The academic head decides what was escalated, for others than themselves. */
  lemma HeadReviewOutcome(cfg: Config, book: Book, authorized: bool, actor: UserId, id: nat, approve: bool)
    ensures AcceptedIff(cfg, book, authorized, HeadReview(actor, id, approve),
                        && id < |book.corrections| && book.corrections[id].requestedBy != actor
                        && (book.corrections[id].status == EscalationRequested
                            || book.corrections[id].status == UnderAcademicHeadReview))
    ensures Do(cfg, book, authorized, HeadReview(actor, id, approve)).outcome == Accepted ==>
              IsMoved(book, Do(cfg, book, authorized, HeadReview(actor, id, approve)).book, id,
                      book.corrections[id].(
                        status := if approve then ApprovedByAcademicHead else RejectedByAcademicHead,
                        reviewedBy := Some(actor)), actor, ReviewedAction)
  {
  }

  lemma EscalationOutcome(cfg: Config, book: Book, authorized: bool, actor: UserId, id: nat, reason: string)
    ensures AcceptedIff(cfg, book, authorized, Escalate(actor, id, reason),
                        && id < |book.corrections| && !AllSpaces(reason)
                        && (book.corrections[id].status == Requested
                            || book.corrections[id].status == SubmittedRequest
                            || book.corrections[id].status == UnderHodReview))
    ensures Do(cfg, book, authorized, Escalate(actor, id, reason)).outcome == Accepted ==>
              IsMoved(book, Do(cfg, book, authorized, Escalate(actor, id, reason)).book, id,
                      book.corrections[id].(status := EscalationRequested, escalatedBy := Some(actor)),
                      actor, EscalatedAction)
  {
    StripsToNothing(reason);
  }

  // ---- Application ----

  /** The proposal gives this field another value. */
  predicate Proposes(q: Correction, r: Record, f: Field) {
    match f
    case ComponentScores => q.proposedScores != map[] && q.proposedScores != r.scores
    case RawScore => q.proposedRawScore.Some? && q.proposedRawScore.value != r.rawScore
    case Remarks => q.proposedRemarks != "" && q.proposedRemarks != r.remarks
  }

  /** `after` is `before` with the proposal written over it: what is proposed replaces what was there. */
  ghost predicate IsOverwritten(cfg: Config, before: Record, after: Record, q: Correction) {
    && after.rawScore == (if q.proposedRawScore.Some? then q.proposedRawScore.value else before.rawScore)
    && after.scores == (if q.proposedScores != map[] then q.proposedScores else before.scores)
    && after.remarks == (if q.proposedRemarks != "" then q.proposedRemarks else before.remarks)
    && (cfg.bandOf(before.assessment, after.rawScore).Some? ==>
          after.normalized == cfg.bandOf(before.assessment, after.rawScore))
    && (cfg.bandOf(before.assessment, after.rawScore) == None ==> after.normalized == before.normalized)
    && after.version == before.version + 1
    && after.assessment == before.assessment && after.batch == before.batch && after.student == before.student
  }

  lemma CorrectedIsOverwritten(cfg: Config, r: Record, q: Correction)
    ensures IsOverwritten(cfg, r, Corrected(cfg, r, q), q)
    ensures forall f: Field :: f in ChangedFields(r, q) <==> Proposes(q, r, f)
  {
    var scores := if Proposes(q, r, ComponentScores) then [ComponentScores] else [];
    var score := if Proposes(q, r, RawScore) then [RawScore] else [];
    var remarks := if Proposes(q, r, Remarks) then [Remarks] else [];
    assert ChangedFields(r, q) == scores + score + remarks;
    forall f: Field
      ensures f in ChangedFields(r, q) <==> Proposes(q, r, f)
    {
      assert f in scores + score + remarks <==> f in scores || f in score || f in remarks;
    }
  }

  ghost predicate MayApply(cfg: Config, book: Book, actor: UserId, id: nat) {
    && id < |book.corrections|
    && var q := book.corrections[id];
    && (q.status == Approved || q.status == ApprovedByHod || q.status == ApprovedByAcademicHead)
    && q.requestedBy != actor && q.record < |book.records|
    && var r := book.records[q.record];
    && (Proposes(q, r, ComponentScores) || Proposes(q, r, RawScore) || Proposes(q, r, Remarks))
    && r.assessment in cfg.assessments && r.student in cfg.assessments[r.assessment].roster
    && IsWithin(if q.proposedRawScore.Some? then q.proposedRawScore.value else r.rawScore,
                cfg.assessments[r.assessment].maxScore)
  }

  /** An application overwrites one record and makes the runs of its assessment stale. */
  ghost predicate IsApplied(cfg: Config, before: Book, after: Book, id: nat, actor: UserId)
    requires id < |before.corrections| && before.corrections[id].record < |before.records|
  {
    var q := before.corrections[id];
    var r := before.records[q.record];
    && |after.records| == |before.records| && IsOverwritten(cfg, r, after.records[q.record], q)
    && (forall i :: 0 <= i < |before.records| && i != q.record ==> after.records[i] == before.records[i])
    && |after.runs| == |before.runs|
    && (forall i :: 0 <= i < |before.runs| ==>
          after.runs[i] == if before.runs[i].assessment == r.assessment then before.runs[i].(status := Stale)
                           else before.runs[i])
    && |after.corrections| == |before.corrections|
    && after.corrections[id] == q.(status := Applied, appliedBy := Some(actor))
    && (forall i :: 0 <= i < |before.corrections| && i != id ==> after.corrections[i] == before.corrections[i])
    && |after.audits| == |before.audits| + 1 && after.audits[..|before.audits|] == before.audits
    && IsApplicationAudit(cfg, after.audits[|before.audits|], id, actor, q, r, after.records[q.record])
    && after.batches == before.batches && after.drafts == before.drafts && after.originals == before.originals
  }

  /** The audit record names the people, the statuses, the states before and after, and the fields that changed. */
  ghost predicate IsApplicationAudit(cfg: Config, a: Audit, id: nat, actor: UserId, q: Correction, r: Record,
                                     r': Record)
  {
    && a.correction == id && a.record == q.record && a.actor == actor && a.action == AppliedAction
    && a.statusFrom == Some(q.status) && a.statusTo == Applied
    && a.before == cfg.stateHash(GradeState(q.record, r.rawScore, r.scores, r.remarks, r.version))
    && a.after == cfg.stateHash(GradeState(q.record, r'.rawScore, r'.scores, r'.remarks, r'.version))
    && forall f: Field :: f in a.changed <==> Proposes(q, r, f)
  }

  lemma NothingChanged(cfg: Config, r: Record, q: Correction)
    ensures ChangedFields(r, q) != [] <==>
            Proposes(q, r, ComponentScores) || Proposes(q, r, RawScore) || Proposes(q, r, Remarks)
    ensures Savable(cfg, Corrected(cfg, r, q)) <==>
            && r.assessment in cfg.assessments && r.student in cfg.assessments[r.assessment].roster
            && IsWithin(if q.proposedRawScore.Some? then q.proposedRawScore.value else r.rawScore,
                        cfg.assessments[r.assessment].maxScore)
  {
  }

  /** When an approved correction is applied, and what that writes. */
  lemma ApplicationOutcome(cfg: Config, book: Book, authorized: bool, actor: UserId, id: nat)
    ensures AcceptedIff(cfg, book, authorized, Apply(actor, id), MayApply(cfg, book, actor, id))
    ensures Do(cfg, book, authorized, Apply(actor, id)).outcome == Accepted ==>
              id < |book.corrections| && book.corrections[id].record < |book.records|
              && IsApplied(cfg, book, Do(cfg, book, authorized, Apply(actor, id)).book, id, actor)
  {
    hide Corrected, ChangedFields, IsOverwritten, Proposes, Savable, IsWithin;
    if id < |book.corrections| && book.corrections[id].record < |book.records| {
      NothingChanged(cfg, book.records[book.corrections[id].record], book.corrections[id]);
      CorrectedIsOverwritten(cfg, book.records[book.corrections[id].record], book.corrections[id]);
    }
  }

  // ---- Submission ----

  /** The rows of a final submission fit, each has a score, and none of their learners has a record yet. */
  ghost predicate RowsCanBeRecorded(a: Assessment, records: seq<Record>, assessment: nat, rows: seq<Row>) {
    && rows != [] && RowsFit(rows, a.roster, a.maxScore, a.components, true)
    && (a.components != [] ==> forall i :: 0 <= i < |rows| ==> rows[i].scores != map[])
    && forall i, r :: 0 <= i < |rows| && 0 <= r < |records| && records[r].assessment == assessment ==>
         records[r].student != Strip(rows[i].studentId)
  }

  ghost predicate MaySubmit(cfg: Config, book: Book, c: Command)
    requires c.Submit?
  {
    && !AllSpaces(c.key) && c.confirmed && c.assessment in cfg.assessments
    && (forall b :: b in book.batches ==> b.key != Strip(c.key))
    && (forall b :: b in book.batches ==> b.assessment != c.assessment || b.teacher != c.teacher)
    && RowsCanBeRecorded(cfg.assessments[c.assessment], book.records, c.assessment, c.rows)
  }

  /** The first record of this learner and assessment, saying what the row says. */
  ghost predicate IsEntered(r: Record, row: Row, assessment: nat, batch: nat, components: seq<Component>) {
    && r.assessment == assessment && r.batch == batch && r.version == 1 && r.normalized == None
    && r.student == Strip(row.studentId) && r.scores == row.scores && r.remarks == row.remarks
    && (components == [] ==> row.rawScore == Score(r.rawScore))
    && (components != [] ==> AllNumbers(row.scores) && r.rawScore == Total(row.scores))
  }

  ghost predicate IsEnteredFrom(after: seq<Record>, n: nat, rows: seq<Row>, assessment: nat, batch: nat,
                                components: seq<Component>)
  {
    |after| == n + |rows|
    && forall i :: n <= i < |after| ==> IsEntered(after[i], rows[i - n], assessment, batch, components)
  }

  predicate IsClosedFor(before: seq<Draft>, after: seq<Draft>, assessment: nat, teacher: UserId) {
    |after| == |before|
    && forall i :: 0 <= i < |before| ==>
         after[i] == if before[i].assessment == assessment && before[i].teacher == teacher && before[i].status == Open
                     then before[i].(status := Closed) else before[i]
  }

  /** A submission adds its batch and a record per row, and closes the teacher's draft. */
  ghost predicate IsSubmitted(cfg: Config, before: Book, after: Book, c: Command)
    requires c.Submit? && c.assessment in cfg.assessments
  {
    && after.batches == before.batches
                        + [Batch(c.assessment, c.teacher, Strip(c.key), cfg.payloadHash(c.rows), |c.rows|)]
    && before.records <= after.records
    && IsEnteredFrom(after.records, |before.records|, c.rows, c.assessment, |before.batches|,
                     cfg.assessments[c.assessment].components)
    && after.originals == before.originals + after.records[|before.records|..]
    && IsClosedFor(before.drafts, after.drafts, c.assessment, c.teacher)
    && after.corrections == before.corrections && after.audits == before.audits && after.runs == before.runs
  }

  lemma RecordableRows(a: Assessment, records: seq<Record>, assessment: nat, rows: seq<Row>)
    ensures RowsCanBeRecorded(a, records, assessment, rows) <==>
            ValidateRows(rows, a.roster, a.maxScore, a.components, true).Ok?
            && Insertable(records, ValidateRows(rows, a.roster, a.maxScore, a.components, true).value, assessment)
  {
    BatchOutcome(rows, a.roster, a.maxScore, a.components, true);
    hide ValidateRows, Strip, Total, AllNumbers, ComponentsFit, LearnersDiffer;
    if ValidateRows(rows, a.roster, a.maxScore, a.components, true).Ok? {
      var marks := ValidateRows(rows, a.roster, a.maxScore, a.components, true).value;
      forall i | 0 <= i < |rows|
        ensures marks[i].studentId == Strip(rows[i].studentId)
        ensures marks[i].rawScore.Some? <==> a.components == [] || rows[i].scores != map[]
      {
        assert RepeatsRow(marks[i], rows[i], a.components);
        assert RowFits(rows[i], a.roster, a.maxScore, a.components, true);
      }
    }
  }

  lemma RecordsAreEntered(before: seq<Record>, marks: seq<MarkRow>, rows: seq<Row>, assessment: nat, batch: nat,
                          components: seq<Component>)
    requires RepeatsRows(marks, rows, components)
    requires forall i :: 0 <= i < |marks| ==> marks[i].rawScore.Some?
    ensures IsEnteredFrom(before + NewRecords(marks, assessment, batch), |before|, rows, assessment, batch, components)
  {
    hide Strip, Total, AllNumbers;
    var after := before + NewRecords(marks, assessment, batch);
    forall i | |before| <= i < |after|
      ensures IsEntered(after[i], rows[i - |before|], assessment, batch, components)
    {
      assert RepeatsRow(marks[i - |before|], rows[i - |before|], components);
    }
  }

  lemma DraftsAreClosed(before: seq<Draft>, assessment: nat, teacher: UserId)
    ensures IsClosedFor(before, CloseDrafts(before, assessment, teacher), assessment, teacher)
  {
  }

  lemma WithBatchSubmits(cfg: Config, book: Book, c: Command, marks: seq<MarkRow>)
    requires c.Submit? && c.assessment in cfg.assessments
    requires RepeatsRows(marks, c.rows, cfg.assessments[c.assessment].components)
    requires forall i :: 0 <= i < |marks| ==> marks[i].rawScore.Some?
    ensures var batch := Batch(c.assessment, c.teacher, Strip(c.key), cfg.payloadHash(c.rows), |marks|);
            IsSubmitted(cfg, book, WithBatch(book, batch, marks), c)
  {
    hide Strip, IsEnteredFrom, IsClosedFor, NewRecords, CloseDrafts;
    var rows := NewRecords(marks, c.assessment, |book.batches|);
    RecordsAreEntered(book.records, marks, c.rows, c.assessment, |book.batches|,
                      cfg.assessments[c.assessment].components);
    DraftsAreClosed(book.drafts, c.assessment, c.teacher);
    assert (book.records + rows)[|book.records|..] == rows;
  }

  /** When a submission is accepted, and what that writes. */
  lemma SubmissionOutcome(cfg: Config, book: Book, authorized: bool, c: Command)
    requires c.Submit?
    ensures var reply := Do(cfg, book, authorized, c);
            && (reply.outcome == Accepted <==> authorized && MaySubmit(cfg, book, c))
            && (reply.outcome != Accepted ==> reply.book == book)
            && (reply.outcome == Accepted ==> IsSubmitted(cfg, book, reply.book, c))
  {
    hide RowsCanBeRecorded, ValidateRows, Insertable, IsSubmitted, WithBatch, RowsFit, RepeatsRows;
    StripsToNothing(c.key);
    BatchByKeyFinds(book.batches, Strip(c.key));
    if c.assessment in cfg.assessments {
      var a := cfg.assessments[c.assessment];
      RecordableRows(a, book.records, c.assessment, c.rows);
      BatchOutcome(c.rows, a.roster, a.maxScore, a.components, true);
      if Do(cfg, book, authorized, c).outcome == Accepted {
        var marks := ValidateRows(c.rows, a.roster, a.maxScore, a.components, true).value;
        InsertableHaveScores(book.records, marks, c.assessment);
        WithBatchSubmits(cfg, book, c, marks);
      }
    }
  }

  lemma InsertableHaveScores(records: seq<Record>, marks: seq<MarkRow>, assessment: nat)
    requires Insertable(records, marks, assessment)
    ensures forall i :: 0 <= i < |marks| ==> marks[i].rawScore.Some?
  {
  }

  // ---- Drafts ----

  ghost predicate MaySave(cfg: Config, book: Book, c: Command)
    requires c.SaveDraft?
  {
    && !AllSpaces(c.key) && c.assessment in cfg.assessments
    && (forall d :: d in book.drafts ==> d.key != Strip(c.key))
    && (c.draftVersion.Some? ==>
          forall d :: d in book.drafts && d.assessment == c.assessment && d.teacher == c.teacher && d.status == Open
                      ==> d.version == c.draftVersion.value)
    && var a := cfg.assessments[c.assessment];
       RowsFit(c.rows, a.roster, a.maxScore, a.components, false)
  }

  /** Draft `o` has taken the save: the open one of this teacher and assessment, or a new one. */
  ghost predicate IsSavedIn(cfg: Config, before: seq<Draft>, after: seq<Draft>, c: Command, o: nat)
    requires c.SaveDraft? && c.assessment in cfg.assessments
  {
    && o < |after| && RepeatsRows(after[o].rows, c.rows, cfg.assessments[c.assessment].components)
    && IsSavedAs(cfg, after[o], c, if o < |before| then before[o].saves else [])
    && if o < |before| then IsOpenFor(before[o], c.assessment, c.teacher) && after == before[o := after[o]]
       else after == before + [after[o]] && forall d :: d in before ==> !IsOpenFor(d, c.assessment, c.teacher)
  }

  /** When the save of a draft is accepted, and which draft it goes to. */
  lemma SaveOutcome(cfg: Config, book: Book, authorized: bool, c: Command) returns (o: nat)
    requires c.SaveDraft? && DraftInv(book.drafts)
    ensures var reply := Do(cfg, book, authorized, c);
            && (reply.outcome == Accepted <==> authorized && MaySave(cfg, book, c))
            && (reply.outcome != Accepted ==> reply.book == book)
            && (reply.outcome == Accepted ==> reply.book == book.(drafts := reply.book.drafts)
                                              && IsSavedIn(cfg, book.drafts, reply.book.drafts, c, o))
  {
    hide ValidateRows, RowsFit, RepeatsRows, DraftInv;
    StripsToNothing(c.key);
    DraftByKeyFinds(book.drafts, Strip(c.key));
    OpenDraftFinds(book.drafts, c.assessment, c.teacher);
    OpenVersions(book.drafts, c.assessment, c.teacher);
    var open := OpenDraft(book.drafts, c.assessment, c.teacher);
    o := if open.Some? then open.value else |book.drafts|;
    if c.assessment in cfg.assessments {
      var a := cfg.assessments[c.assessment];
      BatchOutcome(c.rows, a.roster, a.maxScore, a.components, false);
    }
    if Do(cfg, book, authorized, c).outcome == Accepted {
      AcceptedSave(cfg, book, c);
    }
  }

  /** A key that a draft stores is answered from that draft for its own context and payload, and refused otherwise. */
  lemma StoredKeyOutcome(cfg: Config, book: Book, authorized: bool, c: Command, d: nat)
    requires c.SaveDraft? && DraftInv(book.drafts) && d < |book.drafts| && book.drafts[d].key == Strip(c.key)
    ensures var draft := book.drafts[d];
            Do(cfg, book, authorized, c)
            == Reply(book, if authorized && c.assessment in cfg.assessments
                              && c.assessment == draft.assessment && c.teacher == draft.teacher
                              && (draft.payloadHash == "" || draft.payloadHash == cfg.payloadHash(c.rows))
                           then Replayed(d) else Refused)
  {
    DraftByKeyIs(book.drafts, d);
    assert IsLastSave(book.drafts[d]);
    hide ValidateRows, DraftInv;
  }

  lemma OpenVersions(drafts: seq<Draft>, assessment: nat, teacher: UserId)
    requires DraftInv(drafts)
    ensures match OpenDraft(drafts, assessment, teacher)
            case Some(o) =>
              o < |drafts| && drafts[o] in drafts
              && forall d :: d in drafts && IsOpenFor(d, assessment, teacher) ==> d == drafts[o]
            case None => forall d :: d in drafts ==> !IsOpenFor(d, assessment, teacher)
  {
    OpenDraftFinds(drafts, assessment, teacher);
  }

  // ---- Compilation ----

  ghost predicate IsSummarizable(r: Record, a: Assessment) {
    && ComponentsFit(a.components, r.scores, false)
    && Numeric(r.scores, Known(r.scores, a.components))
    && IsWithin(SumOver(r.scores, Known(r.scores, a.components)), a.maxScore)
  }

  /** A compilation is accepted exactly when every record of the assessment can be summarised. */
  lemma CompilationOutcome(cfg: Config, book: Book, authorized: bool, assessment: nat)
    ensures AcceptedIff(cfg, book, authorized, CompileRun(assessment),
                        && assessment in cfg.assessments
                        && forall r :: r in book.records && r.assessment == assessment ==>
                             IsSummarizable(r, cfg.assessments[assessment]))
    ensures Do(cfg, book, authorized, CompileRun(assessment)).outcome == Accepted ==>
              var after := Do(cfg, book, authorized, CompileRun(assessment)).book;
              && after == book.(runs := after.runs)
              && |after.runs| == |book.runs| + 1
              && (forall i :: 0 <= i < |book.runs| ==>
                    after.runs[i] == if book.runs[i].assessment == assessment then book.runs[i].(status := Stale)
                                     else book.runs[i])
              && var run := after.runs[|book.runs|];
                 && run.assessment == assessment && run.status == run.compiled.status && run.seen == |book.records|
                 && Compile(RecordsOf(book.records, assessment), cfg.assessments[assessment]) == Some(run.compiled)
  {
    hide Compile, IsSummarizable, Compiles;
    if assessment in cfg.assessments {
      var a := cfg.assessments[assessment];
      C.RecordsOfMembers(book.records, assessment);
      CompileAborts(RecordsOf(book.records, assessment), a);
      forall r: Record
        ensures Compiles(r, a) <==> IsSummarizable(r, a)
      {
        SummarizableCompiles(r, a);
      }
    }
  }

  lemma SummarizableCompiles(r: Record, a: Assessment)
    ensures Compiles(r, a) <==> IsSummarizable(r, a)
  {
    SummaryOutcome(r.scores, a.components, a.maxScore);
  }
}
