/** What a compilation finds missing, counts and shows, in terms of the records and the roster alone. */
module CompilationLaws {
  import opened Options
  import opened Sorting
  import opened Text
  import opened Marks
  import opened EntryLaws
  import opened Completion
  import opened Compilation

  // ---- Findings ----

  lemma {:induction false} MissingNames(components: seq<Component>, scores: Scores, id: string)
    ensures id in MissingComponents(components, scores) <==> IsLeftBlank(components, scores, id)
  {
    if components != [] {
      hide IsLeftBlank;
      var n := |components| - 1;
      MissingNames(components[..n], scores, id);
      assert components == components[..n] + [components[n]];
      LeftBlankOfOneMore(components[..n], components[n], scores, id);
    } else {
      assert !IsLeftBlank(components, scores, id);
    }
  }

  /** The missing components come in the order of the components, each once. */
  lemma {:induction false} MissingComeInOrder(components: seq<Component>, scores: Scores)
    ensures components == [] ==> MissingComponents(components, scores) == []
    ensures components != [] ==>
              MissingComponents(components, scores)
              == (if components[0].required && IsBlank(scores, components[0].id) then [components[0].id] else [])
                 + MissingComponents(components[1..], scores)
  {
    if |components| == 1 {
      assert components[..0] == [] && components[1..] == [];
    } else if components != [] {
      var n := |components| - 1;
      var init, rest := components[..n], components[1..];
      assert rest[..n - 1] == init[1..] && rest[n - 1] == components[n];
      MissingComeInOrder(init, scores);
      hide IsBlank, Get;
    }
  }

  /** The summary of a record and the findings about it list the same missing components. */
  lemma {:induction false} SummaryAndFindingsAgree(components: seq<Component>, scores: Scores)
    requires FactsOf(components, scores).Ok?
    ensures FactsOf(components, scores).value.1 == MissingComponents(components, scores)
  {
    if components != [] {
      SummaryAndFindingsAgree(components[..|components| - 1], scores);
    }
  }

  /** This record is that of the learner, and what the finding says of it is true. */
  ghost predicate IsFoundIn(r: Record, f: Finding, roster: set<string>, components: seq<Component>) {
    && r.student == f.learner
    && match f.code
       case StudentOutsideRoster => r.student !in roster && f.missing == []
       case MissingRequiredComponent =>
         && r.student in roster && f.missing == MissingComponents(components, r.scores)
         && exists id :: IsLeftBlank(components, r.scores, id)
       case _ => false
  }

  ghost predicate IsFoundInSome(records: seq<Record>, f: Finding, roster: set<string>, components: seq<Component>) {
    exists i :: 0 <= i < |records| && IsFoundIn(records[i], f, roster, components)
  }

  ghost predicate HasTwoRecords(records: seq<Record>, learner: string) {
    exists i, j :: 0 <= i < j < |records| && records[i].student == records[j].student == learner
  }

  lemma FindingsForOne(r: Record, f: Finding, roster: set<string>, components: seq<Component>)
    ensures f in FindingsFor(r, roster, components) <==> IsFoundIn(r, f, roster, components)
  {
    hide IsLeftBlank;
    var missing := MissingComponents(components, r.scores);
    if missing != [] {
      MissingNames(components, r.scores, missing[0]);
      assert IsLeftBlank(components, r.scores, missing[0]);
    }
    if id :| IsLeftBlank(components, r.scores, id) {
      MissingNames(components, r.scores, id);
    }
  }

  lemma FoundInOneMore(records: seq<Record>, r: Record, f: Finding, roster: set<string>, components: seq<Component>)
    ensures IsFoundInSome(records + [r], f, roster, components) <==>
            IsFoundInSome(records, f, roster, components) || IsFoundIn(r, f, roster, components)
  {
    hide IsFoundIn;
    var more := records + [r];
    if IsFoundInSome(records, f, roster, components) {
      var i :| 0 <= i < |records| && IsFoundIn(records[i], f, roster, components);
      assert IsFoundIn(more[i], f, roster, components);
    }
    if IsFoundIn(r, f, roster, components) {
      assert IsFoundIn(more[|records|], f, roster, components);
    }
  }

  lemma {:induction false} FindingsOfRecords(records: seq<Record>, f: Finding, roster: set<string>,
                                             components: seq<Component>)
    ensures f in RecordFindings(records, roster, components) <==> IsFoundInSome(records, f, roster, components)
  {
    if records != [] {
      hide FindingsFor, IsFoundIn, IsFoundInSome;
      var n := |records| - 1;
      FindingsOfRecords(records[..n], f, roster, components);
      FindingsForOne(records[n], f, roster, components);
      FoundInOneMore(records[..n], records[n], f, roster, components);
      assert records == records[..n] + [records[n]];
    }
  }

  lemma EachMember(ids: seq<string>, code: Code, missing: seq<string>, f: Finding)
    ensures f in Each(ids, code, missing) <==> f.learner in ids && f.code == code && f.missing == missing
  {
    var each := Each(ids, code, missing);
    if f.learner in ids && f.code == code && f.missing == missing {
      var i :| 0 <= i < |ids| && ids[i] == f.learner;
      assert each[i] == f;
    }
  }

  /** The finding is true of these records and this roster. */
  ghost predicate IsTrue(f: Finding, records: seq<Record>, roster: set<string>, components: seq<Component>) {
    match f.code
    case MissingLearnerMark =>
      f.learner in roster && (forall r :: r in records ==> r.student != f.learner) && f.missing == ["raw_score"]
    case DuplicateGradeRecord => HasTwoRecords(records, f.learner) && f.missing == []
    case _ => IsFoundInSome(records, f, roster, components)
  }

  lemma RecordFindingsOnly(f: Finding, records: seq<Record>, roster: set<string>, components: seq<Component>)
    ensures IsFoundInSome(records, f, roster, components) ==>
              f.code == StudentOutsideRoster || f.code == MissingRequiredComponent
  {
  }

  lemma AbsentLearners(records: seq<Record>, roster: set<string>, learner: string)
    ensures learner in SortSet(roster - StudentsOf(records)) <==>
            learner in roster && forall r :: r in records ==> r.student != learner
    ensures learner in SortSet(DuplicatesOf(records)) <==> HasTwoRecords(records, learner)
  {
    SortSetMembers(roster - StudentsOf(records));
    SortSetMembers(DuplicatesOf(records));
    if learner !in StudentsOf(records) {
      forall r | r in records
        ensures r.student != learner
      {
        var i :| 0 <= i < |records| && records[i] == r;
        assert records[i].student in StudentsOf(records);
      }
    }
  }

  /** Findings go by learner, and those about one learner by the names of their codes. */
  predicate ComesFirst(f: Finding, g: Finding) {
    if f.learner == g.learner then f.code == g.code || IsNamedBefore(f.code, g.code) else LexLe(f.learner, g.learner)
  }

  predicate IsNamedBefore(c: Code, d: Code) {
    match c
    case DuplicateGradeRecord => d != DuplicateGradeRecord
    case MissingLearnerMark => d == MissingRequiredComponent || d == StudentOutsideRoster
    case MissingRequiredComponent => d == StudentOutsideRoster
    case StudentOutsideRoster => false
  }

  lemma FindingOrder()
    ensures TotalPreorder(FindingLe)
    ensures forall f: Finding, g: Finding :: FindingLe(f, g) <==> ComesFirst(f, g)
  {
    LexOrder();
    forall f: Finding, g: Finding
      ensures FindingLe(f, g) || FindingLe(g, f)
    {
      LexTotal(f.learner, g.learner);
    }
    forall f: Finding, g: Finding, h: Finding | FindingLe(f, g) && FindingLe(g, h)
      ensures FindingLe(f, h)
    {
      FindingsTransitive(f, g, h);
    }
  }

  lemma FindingsTransitive(f: Finding, g: Finding, h: Finding)
    requires FindingLe(f, g) && FindingLe(g, h)
    ensures FindingLe(f, h)
  {
    LexTotal(f.learner, f.learner);
    LexTotal(g.learner, g.learner);
    LexTotal(f.learner, g.learner);
    hide LexLe;
    LexTransitive(f.learner, g.learner, h.learner);
  }

  lemma FindingsAreOrdered(records: seq<Record>, roster: set<string>, components: seq<Component>)
    ensures var findings := MissingMarks(records, roster, components);
            forall i, j :: 0 <= i < j < |findings| ==> ComesFirst(findings[i], findings[j])
  {
    hide AllFindings, Sort, ComesFirst, FindingLe, TotalPreorder;
    FindingOrder();
    SortSorts(AllFindings(records, roster, components), FindingLe);
  }

  /** A finding is reported exactly when it is true. */
  lemma FindingsAreExact(records: seq<Record>, roster: set<string>, components: seq<Component>, f: Finding)
    ensures f in MissingMarks(records, roster, components) <==> IsTrue(f, records, roster, components)
  {
    hide IsFoundInSome, HasTwoRecords, SortSet, RecordFindings, Each, Sort, DuplicatesOf, StudentsOf;
    SortMembers(AllFindings(records, roster, components), FindingLe);
    FindingsOfRecords(records, f, roster, components);
    RecordFindingsOnly(f, records, roster, components);
    AbsentLearners(records, roster, f.learner);
    EachMember(SortSet(roster - StudentsOf(records)), MissingLearnerMark, ["raw_score"], f);
    EachMember(SortSet(DuplicatesOf(records)), DuplicateGradeRecord, [], f);
  }

  // ---- Counts ----

  ghost predicate HasRecord(records: seq<Record>, learner: string) {
    exists i :: 0 <= i < |records| && records[i].student == learner
  }

  ghost predicate IsSource(records: seq<Record>, batch: nat) {
    exists i :: 0 <= i < |records| && records[i].batch == batch
  }

  /** The integer nearest to 10000 times `part` of `whole`, the upper one of two. */
  predicate IsPercentage(p: int, part: int, whole: int) {
    20000 * part - whole < 2 * whole * p <= 20000 * part + whole
  }

  /**
   The counts of a compilation are those of the roster and of the learners on it that have
   a record; its percentage is their rounded ratio; its sources are the batches of the records.
   */
  lemma CountsAreExact(records: seq<Record>, a: Assessment, present: set<string>)
    requires Compile(records, a).Some?
    requires forall s :: s in present <==> s in a.roster && HasRecord(records, s)
    ensures var c := Compile(records, a).value;
            && c.expected == |a.roster| && c.submitted == |present| && c.missing == |a.roster - present|
            && (a.roster == {} ==> c.percentage == 0)
            && (a.roster != {} ==> IsPercentage(c.percentage, |present|, |a.roster|))
            && (forall b :: b in c.sources <==> IsSource(records, b))
  {
    hide MissingMarks, SnapshotsOf, DetermineStatus, AllCompile, RoundHalfUp;
    assert StudentsOf(records) * a.roster == present;
    assert a.roster - StudentsOf(records) == a.roster - present;
    AbsencesCounted(records, a.roster, a.components);
    if a.roster != {} {
      RoundedIs(10000 * |present|, |a.roster|, Compile(records, a).value.percentage);
    }
  }

  // ---- Snapshots ----

  /** The snapshot shows the learner's record: its scores, its percentage and each of its components. */
  ghost predicate ShowsRecord(shot: Snapshot, r: Record, a: Assessment) {
    && shot.learner == r.student && shot.context == a.context
    && shot.score.rawScore == r.rawScore && shot.score.normalized == r.normalized
    && shot.score.maxScore == a.maxScore && 0 < a.maxScore
    && IsPercentage(shot.score.percentage, r.rawScore, a.maxScore)
    && ShowsComponents(shot.components.facts, a.components, r.scores)
    && (forall id :: id in shot.components.missingRequired <==> IsLeftBlank(a.components, r.scores, id))
    && (a.components != [] && IdsDiffer(a.components) ==>
          shot.components.total == Some(SumShown(shot.components.facts)))
    && (a.components == [] ==> shot.components.total == None)
  }

  lemma PartsShowRecord(shot: Snapshot, r: Record, a: Assessment)
    requires Compiles(r, a) && shot.learner == r.student && shot.context == a.context
    requires shot.score == ScoreOf(r, a) && shot.components == Summarize(r.scores, a.components, a.maxScore).value
    ensures ShowsRecord(shot, r, a)
  {
    hide Summarize, RoundHalfUp, ShowsComponents, IsLeftBlank, IdsDiffer, ComponentsFit;
    SummaryOutcome(r.scores, a.components, a.maxScore);
    RoundedIs(10000 * r.rawScore, a.maxScore, shot.score.percentage);
  }

  lemma {:induction false} FindingsAboutMember(fs: seq<Finding>, learner: string, f: Finding)
    ensures f in FindingsAbout(fs, learner) <==> f in fs && f.learner == learner
  {
    if fs != [] {
      FindingsAboutMember(fs[..|fs| - 1], learner, f);
      assert fs == fs[..|fs| - 1] + [fs[|fs| - 1]];
    }
  }

  /** The snapshot carries the status and sources of the compilation and the findings about its learner. */
  ghost predicate CarriesFindings(shot: Snapshot, records: seq<Record>, a: Assessment, c: Compiled) {
    && shot.status == c.status && shot.sources == c.sources
    && forall f :: f in shot.missing <==> f.learner == shot.learner && IsTrue(f, records, a.roster, a.components)
  }

  lemma ShotShowsRecord(shot: Snapshot, r: Record, records: seq<Record>, a: Assessment, c: Compiled)
    requires IsShotOf(shot, r, records, a, c)
    ensures ShowsRecord(shot, r, a) && CarriesFindings(shot, records, a, c)
  {
    hide Summarize, MissingMarks, ScoreOf, FindingsAbout, ShowsRecord, IsTrue;
    PartsShowRecord(shot, r, a);
    forall f: Finding
      ensures f in shot.missing <==> f.learner == shot.learner && IsTrue(f, records, a.roster, a.components)
    {
      FindingsAboutMember(MissingMarks(records, a.roster, a.components), r.student, f);
      FindingsAreExact(records, a.roster, a.components, f);
    }
  }

  /** Every snapshot of a compilation shows one of its records, with the true findings about that learner. */
  lemma SnapshotsShowRecords(records: seq<Record>, a: Assessment, shot: Snapshot)
    requires Compile(records, a).Some? && shot in Compile(records, a).value.snapshots
    ensures CarriesFindings(shot, records, a, Compile(records, a).value)
    ensures exists r :: r in records && ShowsRecord(shot, r, a)
  {
    hide Compile, IsShotOf, ShowsRecord, CarriesFindings;
    SnapshotsMatchRecords(records, a);
    var r :| r in records && IsShotOf(shot, r, records, a, Compile(records, a).value);
    ShotShowsRecord(shot, r, records, a, Compile(records, a).value);
  }
}
