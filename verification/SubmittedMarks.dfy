/** What passing the entry checks means for the compilation of a record, until a correction touches it. */
module SubmittedMarks {
  import opened Options
  import opened Text
  import opened Marks
  import opened EntryLaws
  import opened Compilation
  import opened Gradebook
  import opened CommandLaws
  import opened GradeHistory
  import opened SubmissionProofs

  /** The row check of the final submission accepted this record. */
  ghost predicate WasAccepted(cfg: Config, r: Record) {
    r.assessment in cfg.assessments &&
    var a := cfg.assessments[r.assessment];
    exists row, seen ::
      CheckRow(row, seen, a.roster, a.maxScore, a.components, true)
      == Ok(MarkRow(r.student, Some(r.rawScore), r.scores, r.remarks))
  }

  lemma {:induction false} EachMarkWasChecked(rows: seq<Row>, a: Assessment, i: nat)
    requires CheckRows(rows, a.roster, a.maxScore, a.components, true).Ok? && i < |rows|
    ensures var marks := CheckRows(rows, a.roster, a.maxScore, a.components, true).value;
            |marks| == |rows| &&
            exists seen :: CheckRow(rows[i], seen, a.roster, a.maxScore, a.components, true) == Ok(marks[i])
  {
    AcceptedStudentsAreDistinct(rows, a.roster, a.maxScore, a.components, true);
    var n := |rows| - 1;
    AcceptedStudentsAreDistinct(rows[..n], a.roster, a.maxScore, a.components, true);
    if i < n {
      EachMarkWasChecked(rows[..n], a, i);
    }
  }

  ghost predicate OriginalsAccepted(cfg: Config, book: Book) {
    forall id :: 0 <= id < |book.originals| ==> WasAccepted(cfg, book.originals[id])
  }

  lemma SubmitAccepts(cfg: Config, book: Book, c: Command)
    requires OriginalsAccepted(cfg, book) && c.Submit? && DoSubmit(cfg, book, c).outcome == Accepted
    ensures OriginalsAccepted(cfg, DoSubmit(cfg, book, c).book)
  {
    var book', a := DoSubmit(cfg, book, c).book, cfg.assessments[c.assessment];
    var marks := ValidateRows(c.rows, a.roster, a.maxScore, a.components, true).value;
    AcceptedStudentsAreDistinct(c.rows, a.roster, a.maxScore, a.components, true);
    forall id | 0 <= id < |book'.originals|
      ensures WasAccepted(cfg, book'.originals[id])
    {
      if |book.originals| <= id {
        EachMarkWasChecked(c.rows, a, id - |book.originals|);
      }
    }
  }

  lemma {:induction false} StoryOriginals(s: Story, k: nat)
    requires IsStory(s) && k < |s.books|
    ensures OriginalsAccepted(s.cfg, s.books[k])
  {
    if 0 < k {
      StoryOriginals(s, k - 1);
      assert IsNext(s, k - 1);
      var book, e := s.books[k - 1], s.entries[k - 1];
      OnlyAcceptedChanges(s.cfg, book, e.authorized, e.command);
      if e.command.Submit? && Do(s.cfg, book, e.authorized, e.command).outcome == Accepted {
        SubmitAccepts(s.cfg, book, e.command);
      }
    }
  }

  lemma {:induction false} CheckedComponentsAreFilled(components: seq<Component>, scores: Scores)
    requires CheckComponents(components, scores, true) == None
    ensures FillsRequired(scores, components)
  {
    if components != [] {
      CheckedComponentsAreFilled(components[..|components| - 1], scores);
    }
  }

  /** Every filled score belongs to a component of the assessment. */
  ghost predicate HasCleanKeys(r: Record, a: Assessment) {
    a.components != [] ==> Filled(r.scores) <= Ids(a.components)
  }

  lemma AcceptedRecordCompiles(cfg: Config, r: Record)
    requires WasAccepted(cfg, r) && HasCleanKeys(r, cfg.assessments[r.assessment])
    ensures var a := cfg.assessments[r.assessment];
            && Compiles(r, a) && FillsRequired(r.scores, a.components) && r.student in a.roster
            && (a.components != [] ==> Summarize(r.scores, a.components, a.maxScore).value.total == Some(r.rawScore))
  {
    var a := cfg.assessments[r.assessment];
    var row, seen :| CheckRow(row, seen, a.roster, a.maxScore, a.components, true)
                     == Ok(MarkRow(r.student, Some(r.rawScore), r.scores, r.remarks));
    if a.components != [] {
      CleanKeysCompile(row, seen, a.roster, a.maxScore, a.components);
      CheckedComponentsAreFilled(a.components, row.scores);
    } else {
      assert FactsOf([], r.scores) == Ok(([], []));
      assert Known(r.scores, []) == {};
    }
  }

  /**
   A record that no correction was applied to, and whose filled scores all belong to
   components, compiles: no required component is missing and the score that was stored
   on entry is the total that compilation computes.
   */
  lemma UncorrectedRecordsCompile(s: Story, k: nat, id: nat)
    requires IsStory(s) && k < |s.books| && id < |s.books[k].records|
    requires AppliedTo(s.books[k].audits, id) == []
    requires var r := s.books[k].records[id];
             r.assessment in s.cfg.assessments ==> HasCleanKeys(r, s.cfg.assessments[r.assessment])
    ensures var r := s.books[k].records[id];
            r.assessment in s.cfg.assessments &&
            var a := s.cfg.assessments[r.assessment];
            && Compiles(r, a) && FillsRequired(r.scores, a.components) && r.student in a.roster
            && (a.components != [] ==> Summarize(r.scores, a.components, a.maxScore).value.total == Some(r.rawScore))
  {
    HistoryIsAChain(s, k, id);
    StoryOriginals(s, k);
    assert WasAccepted(s.cfg, s.books[k].originals[id]);
    AcceptedRecordCompiles(s.cfg, s.books[k].records[id]);
  }

  lemma {:induction false} RecordsOfIndexed(records: seq<Record>, assessment: nat, r: Record)
    requires r in RecordsOf(records, assessment)
    ensures exists id :: 0 <= id < |records| && records[id] == r && r.assessment == assessment
  {
    var n := |records| - 1;
    if r in RecordsOf(records[..n], assessment) {
      RecordsOfIndexed(records[..n], assessment, r);
      var id :| 0 <= id < n && records[..n][id] == r;
      assert records[id] == r;
    }
  }

  lemma {:induction false} OneRecordPerLearner(records: seq<Record>, assessment: nat)
    requires forall q, r :: 0 <= q < r < |records| ==>
               records[q].assessment != records[r].assessment || records[q].student != records[r].student
    ensures var those := RecordsOf(records, assessment);
            forall i, j :: 0 <= i < j < |those| ==> those[i].student != those[j].student
  {
    if records != [] {
      var n := |records| - 1;
      OneRecordPerLearner(records[..n], assessment);
      var those := RecordsOf(records[..n], assessment);
      forall i | 0 <= i < |those|
        ensures records[n].assessment == assessment ==> those[i].student != records[n].student
      {
        RecordsOfIndexed(records[..n], assessment, those[i]);
        var id :| 0 <= id < n && records[..n][id] == those[i] && those[i].assessment == assessment;
        assert records[id] == those[i];
      }
    }
  }

  /** No record of the assessment was corrected, and none has scores under foreign keys. */
  ghost predicate IsUntouched(cfg: Config, book: Book, assessment: nat) {
    && assessment in cfg.assessments
    && forall id :: 0 <= id < |book.records| && book.records[id].assessment == assessment ==>
         AppliedTo(book.audits, id) == [] && HasCleanKeys(book.records[id], cfg.assessments[assessment])
  }

  lemma UntouchedRecordsCompile(s: Story, k: nat, assessment: nat)
    requires IsStory(s) && k < |s.books| && IsUntouched(s.cfg, s.books[k], assessment)
    ensures var a, records := s.cfg.assessments[assessment], RecordsOf(s.books[k].records, assessment);
            AllCompile(records, a) && RequiredFilled(records, a.components)
  {
    var a, records := s.cfg.assessments[assessment], RecordsOf(s.books[k].records, assessment);
    forall r | r in records
      ensures Compiles(r, a) && FillsRequired(r.scores, a.components)
    {
      RecordsOfIndexed(s.books[k].records, assessment, r);
      var id :| 0 <= id < |s.books[k].records| && s.books[k].records[id] == r && r.assessment == assessment;
      UncorrectedRecordsCompile(s, k, id);
    }
  }

  lemma LearnersAreDistinct(s: Story, k: nat, assessment: nat)
    requires IsStory(s) && k < |s.books|
    ensures var those := RecordsOf(s.books[k].records, assessment);
            forall i, j :: 0 <= i < j < |those| ==> those[i].student != those[j].student
  {
    SubmissionsAreUnique(s, k);
    OneRecordPerLearner(s.books[k].records, assessment);
  }

  lemma CompleteMeansEverybody(records: seq<Record>, a: Assessment)
    requires AllCompile(records, a) && RequiredFilled(records, a.components)
    requires forall i, j :: 0 <= i < j < |records| ==> records[i].student != records[j].student
    ensures Compile(records, a).Some?
    ensures Compile(records, a).value.status == Complete <==> records != [] && StudentsOf(records) == a.roster
  {
    CompileAborts(records, a);
    CompilationIsExact(records, a);
  }

  /**
   So compilation can only be refused because of a corrected record or a score under a
   key that names no component.  When neither exists, the run is complete exactly when
   every learner of the roster has been submitted.
   */
  lemma UntouchedAssessmentsCompile(s: Story, k: nat, assessment: nat)
    requires IsStory(s) && k < |s.books| && IsUntouched(s.cfg, s.books[k], assessment)
    ensures var a, records := s.cfg.assessments[assessment], RecordsOf(s.books[k].records, assessment);
            && Do(s.cfg, s.books[k], true, CompileRun(assessment)).outcome == Accepted
            && Compile(records, a).Some?
            && (Compile(records, a).value.status == Complete <==> records != [] && StudentsOf(records) == a.roster)
  {
    hide Compile;
    var a, records := s.cfg.assessments[assessment], RecordsOf(s.books[k].records, assessment);
    UntouchedRecordsCompile(s, k, assessment);
    LearnersAreDistinct(s, k, assessment);
    CompleteMeansEverybody(records, a);
    AcceptedCompilation(s.cfg, s.books[k], assessment, Compile(records, a).value);
  }

  // ---- Where records come from ----

  /** Command `m` is an accepted submission, and the record repeats its row `i`. */
  ghost predicate ComesFrom(s: Story, r: Record, m: nat, i: nat) {
    && m < |s.entries| && |s.books| == |s.entries| + 1
    && var c := s.entries[m].command;
    && c.Submit? && i < |c.rows| && c.assessment in s.cfg.assessments
    && Do(s.cfg, s.books[m], s.entries[m].authorized, c).outcome == Accepted
    && IsEntered(r, c.rows[i], c.assessment, |s.books[m].batches|, s.cfg.assessments[c.assessment].components)
  }

  /** A record says nothing its assessment does not allow. */
  predicate IsProper(cfg: Config, r: Record) {
    && r.assessment in cfg.assessments && r.student in cfg.assessments[r.assessment].roster
    && 0 <= r.rawScore <= cfg.assessments[r.assessment].maxScore
  }

  ghost predicate AllProper(cfg: Config, records: seq<Record>) {
    forall id :: 0 <= id < |records| ==> IsProper(cfg, records[id])
  }

  lemma EnteredIsProper(cfg: Config, r: Record, row: Row, assessment: nat, batch: nat)
    requires assessment in cfg.assessments
    requires var a := cfg.assessments[assessment];
             && RowFits(row, a.roster, a.maxScore, a.components, true)
             && IsEntered(r, row, assessment, batch, a.components)
    ensures IsProper(cfg, r)
  {
    hide Strip, ComponentsFit, Total;
  }

  lemma SubmissionIsProper(cfg: Config, book: Book, authorized: bool, c: Command)
    requires c.Submit? && Do(cfg, book, authorized, c).outcome == Accepted
    requires AllProper(cfg, book.records) && AllProper(cfg, book.originals)
    ensures AllProper(cfg, Do(cfg, book, authorized, c).book.records)
    ensures AllProper(cfg, Do(cfg, book, authorized, c).book.originals)
  {
    hide Do, RowFits, IsEntered, IsProper, LearnersDiffer, IsClosedFor;
    SubmissionOutcome(cfg, book, authorized, c);
    var n, after, a := |book.records|, Do(cfg, book, authorized, c).book, cfg.assessments[c.assessment];
    forall id | n <= id < |after.records|
      ensures IsProper(cfg, after.records[id])
    {
      assert RowFits(c.rows[id - n], a.roster, a.maxScore, a.components, true);
      EnteredIsProper(cfg, after.records[id], c.rows[id - n], c.assessment, |book.batches|);
    }
  }

  lemma ApplicationIsProper(cfg: Config, book: Book, authorized: bool, actor: UserId, id: nat)
    requires Do(cfg, book, authorized, Apply(actor, id)).outcome == Accepted && AllProper(cfg, book.records)
    ensures AllProper(cfg, Do(cfg, book, authorized, Apply(actor, id)).book.records)
  {
    hide Do, IsApplicationAudit, Proposes;
    ApplicationOutcome(cfg, book, authorized, actor, id);
    var after := Do(cfg, book, authorized, Apply(actor, id)).book;
    forall k | 0 <= k < |after.records|
      ensures IsProper(cfg, after.records[k])
    {
      assert k != book.corrections[id].record ==> IsProper(cfg, book.records[k]);
    }
  }

  lemma {:induction false} StoryIsProper(s: Story, k: nat)
    requires IsStory(s) && k < |s.books|
    ensures AllProper(s.cfg, s.books[k].records) && AllProper(s.cfg, s.books[k].originals)
  {
    if 0 < k {
      hide AllProper, Corrected, ChangedFields;
      StoryIsProper(s, k - 1);
      assert IsNext(s, k - 1);
      var book, e := s.books[k - 1], s.entries[k - 1];
      OnlyAcceptedChanges(s.cfg, book, e.authorized, e.command);
      if Do(s.cfg, book, e.authorized, e.command).outcome == Accepted {
        if e.command.Submit? {
          SubmissionIsProper(s.cfg, book, e.authorized, e.command);
        } else if e.command.Apply? {
          ApplicationIsProper(s.cfg, book, e.authorized, e.command.actor, e.command.correction);
        }
      }
    } else {
      assert AllProper(s.cfg, []);
    }
  }

  /** Only a submission adds records as they were submitted. */
  lemma OriginalsAfter(cfg: Config, book: Book, authorized: bool, c: Command)
    ensures book.originals <= Do(cfg, book, authorized, c).book.originals
    ensures Do(cfg, book, authorized, c).book.originals == book.originals
            || (c.Submit? && Do(cfg, book, authorized, c).outcome == Accepted)
  {
    hide ValidateRows, Compile, Corrected, ChangedFields;
  }

  lemma NewOriginal(cfg: Config, book: Book, authorized: bool, c: Command, i: nat)
    requires c.Submit? && Do(cfg, book, authorized, c).outcome == Accepted
    requires |book.originals| + i < |Do(cfg, book, authorized, c).book.originals|
    ensures i < |c.rows| && c.assessment in cfg.assessments
    ensures IsEntered(Do(cfg, book, authorized, c).book.originals[|book.originals| + i], c.rows[i], c.assessment,
                      |book.batches|, cfg.assessments[c.assessment].components)
  {
    hide Do, IsEntered, IsClosedFor, RowsCanBeRecorded;
    SubmissionOutcome(cfg, book, authorized, c);
    var n, after := |book.records|, Do(cfg, book, authorized, c).book;
    assert after.originals[|book.originals| + i] == after.records[n..][i] == after.records[n + i];
  }

  lemma {:induction false} OriginalComesFrom(s: Story, k: nat, id: nat) returns (m: nat, i: nat)
    requires IsStory(s) && k < |s.books| && id < |s.books[k].originals|
    ensures m < k && ComesFrom(s, s.books[k].originals[id], m, i)
    decreases k
  {
    hide Do, IsEntered;
    assert 0 < k;
    assert IsNext(s, k - 1);
    var book, e := s.books[k - 1], s.entries[k - 1];
    OriginalsAfter(s.cfg, book, e.authorized, e.command);
    if id < |book.originals| {
      m, i := OriginalComesFrom(s, k - 1, id);
    } else {
      m, i := k - 1, id - |book.originals|;
      NewOriginal(s.cfg, book, e.authorized, e.command, i);
    }
  }

  lemma {:induction false} RebuiltKeepsOwner(cfg: Config, original: Record, applied: seq<Audit>,
                                             corrections: seq<Correction>)
    requires CorrectionsExist(applied, corrections)
    ensures var r := Rebuilt(cfg, original, applied, corrections);
            r.assessment == original.assessment && r.batch == original.batch && r.student == original.student
  {
    if applied != [] {
      RebuiltKeepsOwner(cfg, original, applied[..|applied| - 1], corrections);
    }
  }

  /**
   Every record goes back to one row of one accepted submission: it belongs to that row's
   learner, to the submission's assessment and to the batch it created, and as submitted it
   says what the row says.  Its score, then and now, lies within the assessment's bounds,
   and its learner is on the roster.
   */
  lemma RecordsComeFromRows(s: Story, k: nat, id: nat) returns (m: nat, i: nat)
    requires IsStory(s) && k < |s.books| && id < |s.books[k].records|
    ensures id < |s.books[k].originals|
    ensures m < k && ComesFrom(s, s.books[k].originals[id], m, i)
    ensures IsProper(s.cfg, s.books[k].originals[id]) && IsProper(s.cfg, s.books[k].records[id])
    ensures var r, original := s.books[k].records[id], s.books[k].originals[id];
            r.assessment == original.assessment && r.batch == original.batch && r.student == original.student
    ensures AppliedTo(s.books[k].audits, id) == [] ==> s.books[k].records[id] == s.books[k].originals[id]
  {
    hide Do, ComesFrom, IsProper, Corrected;
    HistoryIsAChain(s, k, id);
    RebuiltKeepsOwner(s.cfg, s.books[k].originals[id], AppliedTo(s.books[k].audits, id), s.books[k].corrections);
    StoryIsProper(s, k);
    m, i := OriginalComesFrom(s, k, id);
  }
}
