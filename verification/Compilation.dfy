/** Compiling the submitted records of one assessment into learner snapshots. */
module Compilation {
  import opened Options
  import opened Sorting
  import opened Text
  import opened Marks
  import opened Completion

  /** The compiled context, fixed while marks are compiled. */
  datatype Assessment = Assessment(maxScore: int, components: seq<Component>, roster: set<string>, context: string)

  datatype Record = Record(
    assessment: nat,
    batch: nat,
    student: string,
    rawScore: int,
    normalized: Option<int>,
    scores: Scores,
    remarks: string,
    version: nat)

  // ---- Missing marks ----

  datatype Code = DuplicateGradeRecord | MissingLearnerMark | MissingRequiredComponent | StudentOutsideRoster

  datatype Finding = Finding(learner: string, code: Code, missing: seq<string>)

  /** Codes compare as their names do. */
  function CodeRank(c: Code): nat {
    match c
    case DuplicateGradeRecord => 0
    case MissingLearnerMark => 1
    case MissingRequiredComponent => 2
    case StudentOutsideRoster => 3
  }

  predicate FindingLe(a: Finding, b: Finding) {
    if a.learner == b.learner then CodeRank(a.code) <= CodeRank(b.code) else LexLe(a.learner, b.learner)
  }

  function MissingComponents(components: seq<Component>, scores: Scores): seq<string> {
    if components == [] then []
    else
      var c := components[|components| - 1];
      MissingComponents(components[..|components| - 1], scores)
      + (if c.required && Get(scores, c.id) == Blank then [c.id] else [])
  }

  function FindingsFor(r: Record, roster: set<string>, components: seq<Component>): seq<Finding> {
    if r.student !in roster then [Finding(r.student, StudentOutsideRoster, [])]
    else
      var missing := MissingComponents(components, r.scores);
      if missing != [] then [Finding(r.student, MissingRequiredComponent, missing)] else []
  }

  function RecordFindings(records: seq<Record>, roster: set<string>, components: seq<Component>): seq<Finding> {
    if records == [] then []
    else RecordFindings(records[..|records| - 1], roster, components)
         + FindingsFor(records[|records| - 1], roster, components)
  }

  function StudentsOf(records: seq<Record>): set<string> {
    set i | 0 <= i < |records| :: records[i].student
  }

  /** Learners with more than one record. */
  function DuplicatesOf(records: seq<Record>): set<string> {
    set i, j | 0 <= i < j < |records| && records[i].student == records[j].student :: records[j].student
  }

  function Each(ids: seq<string>, code: Code, missing: seq<string>): seq<Finding> {
    seq(|ids|, i requires 0 <= i < |ids| => Finding(ids[i], code, missing))
  }

  ghost function AllFindings(records: seq<Record>, roster: set<string>, components: seq<Component>): seq<Finding> {
    RecordFindings(records, roster, components)
    + Each(SortSet(roster - StudentsOf(records)), MissingLearnerMark, ["raw_score"])
    + Each(SortSet(DuplicatesOf(records)), DuplicateGradeRecord, [])
  }

  ghost function MissingMarks(records: seq<Record>, roster: set<string>, components: seq<Component>): seq<Finding> {
    Sort(AllFindings(records, roster, components), FindingLe)
  }

  method DetectMissingMarks(records: seq<Record>, roster: set<string>, components: seq<Component>)
    returns (findings: seq<Finding>)
    ensures findings == MissingMarks(records, roster, components)
  {
    findings := [];
    var seen, duplicates := {}, {};
    for i := 0 to |records|
      invariant seen == StudentsOf(records[..i]) && duplicates == DuplicatesOf(records[..i])
      invariant findings == RecordFindings(records[..i], roster, components)
    {
      assert records[..i + 1][..i] == records[..i];
      OneMoreRecord(records, i);
      var r := records[i];
      if r.student in seen {
        duplicates := duplicates + {r.student};
      }
      seen := seen + {r.student};
      if r.student !in roster {
        findings := findings + [Finding(r.student, StudentOutsideRoster, [])];
        continue;
      }
      var missing := MissingComponents(components, r.scores);
      if missing != [] {
        findings := findings + [Finding(r.student, MissingRequiredComponent, missing)];
      }
    }
    assert records[..|records|] == records;
    var absent := SortedList(roster - seen);
    var twice := SortedList(duplicates);
    findings := findings + Each(absent, MissingLearnerMark, ["raw_score"]) + Each(twice, DuplicateGradeRecord, []);
    findings := Sort(findings, FindingLe);
  }

  lemma OneMoreStudent(records: seq<Record>, i: nat)
    requires i < |records|
    ensures StudentsOf(records[..i + 1]) == StudentsOf(records[..i]) + {records[i].student}
  {
    var a, b := records[..i], records[..i + 1];
    assert b[i].student == records[i].student;
    forall x | x in StudentsOf(a)
      ensures x in StudentsOf(b)
    {
      var k :| 0 <= k < i && a[k].student == x;
      assert b[k].student == x;
    }
  }

  lemma OneMoreDuplicate(records: seq<Record>, i: nat)
    requires i < |records|
    ensures DuplicatesOf(records[..i + 1]) ==
            DuplicatesOf(records[..i])
            + (if records[i].student in StudentsOf(records[..i]) then {records[i].student} else {})
  {
    var a, b, s := records[..i], records[..i + 1], records[i].student;
    forall x | x in DuplicatesOf(a)
      ensures x in DuplicatesOf(b)
    {
      var k, l :| 0 <= k < l < i && a[k].student == a[l].student && a[l].student == x;
      assert b[k].student == b[l].student;
    }
    if s in StudentsOf(a) {
      var k :| 0 <= k < i && a[k].student == s;
      assert b[k].student == b[i].student;
    }
    forall x | x in DuplicatesOf(b)
      ensures x in DuplicatesOf(a) || (x == s && s in StudentsOf(a))
    {
      var k, l :| 0 <= k < l < i + 1 && b[k].student == b[l].student && b[l].student == x;
      assert a[k].student == x;
      if l < i {
        assert a[l].student == x;
      }
    }
  }

  lemma OneMoreRecord(records: seq<Record>, i: nat)
    requires i < |records|
    ensures StudentsOf(records[..i + 1]) == StudentsOf(records[..i]) + {records[i].student}
    ensures DuplicatesOf(records[..i + 1]) ==
            DuplicatesOf(records[..i])
            + (if records[i].student in StudentsOf(records[..i]) then {records[i].student} else {})
  {
    OneMoreStudent(records, i);
    OneMoreDuplicate(records, i);
  }

  // ---- Counting findings ----

  function CountCode(fs: seq<Finding>, code: Code): nat {
    if fs == [] then 0 else (if fs[0].code == code then 1 else 0) + CountCode(fs[1..], code)
  }

  lemma {:induction false} CountInserted(f: Finding, fs: seq<Finding>, code: Code)
    ensures CountCode(Insert(f, fs, FindingLe), code) == CountCode(fs, code) + (if f.code == code then 1 else 0)
  {
    assert ([f] + fs)[1..] == fs;
    if fs != [] && !FindingLe(f, fs[0]) {
      CountInserted(f, fs[1..], code);
      var t := Insert(f, fs[1..], FindingLe);
      assert ([fs[0]] + t)[1..] == t;
    }
  }

  lemma {:induction false} CountSorted(fs: seq<Finding>, code: Code)
    ensures CountCode(Sort(fs, FindingLe), code) == CountCode(fs, code)
  {
    if fs != [] {
      CountSorted(fs[1..], code);
      CountInserted(fs[0], Sort(fs[1..], FindingLe), code);
    }
  }

  lemma {:induction false} CountAppended(a: seq<Finding>, b: seq<Finding>, code: Code)
    ensures CountCode(a + b, code) == CountCode(a, code) + CountCode(b, code)
  {
    if a == [] {
      assert a + b == b;
    } else {
      CountAppended(a[1..], b, code);
      assert (a + b)[1..] == a[1..] + b;
    }
  }

  lemma {:induction false} CountEach(ids: seq<string>, code: Code, missing: seq<string>, other: Code)
    ensures CountCode(Each(ids, code, missing), other) == if other == code then |ids| else 0
  {
    if ids != [] {
      CountEach(ids[1..], code, missing, other);
      assert Each(ids, code, missing)[1..] == Each(ids[1..], code, missing);
    }
  }

  lemma {:induction false} RecordFindingsAreNotAbsences(records: seq<Record>, roster: set<string>,
                                                       components: seq<Component>)
    ensures CountCode(RecordFindings(records, roster, components), MissingLearnerMark) == 0
  {
    if records != [] {
      var init, last := records[..|records| - 1], records[|records| - 1];
      RecordFindingsAreNotAbsences(init, roster, components);
      CountAppended(RecordFindings(init, roster, components),
                    FindingsFor(last, roster, components), MissingLearnerMark);
    }
  }

  lemma AbsencesCounted(records: seq<Record>, roster: set<string>, components: seq<Component>)
    ensures CountCode(MissingMarks(records, roster, components), MissingLearnerMark) == |roster - StudentsOf(records)|
  {
    var a := RecordFindings(records, roster, components);
    var b := Each(SortSet(roster - StudentsOf(records)), MissingLearnerMark, ["raw_score"]);
    var c := Each(SortSet(DuplicatesOf(records)), DuplicateGradeRecord, []);
    CountSorted(AllFindings(records, roster, components), MissingLearnerMark);
    CountAppended(a + b, c, MissingLearnerMark);
    CountAppended(a, b, MissingLearnerMark);
    RecordFindingsAreNotAbsences(records, roster, components);
    CountEach(SortSet(roster - StudentsOf(records)), MissingLearnerMark, ["raw_score"], MissingLearnerMark);
    CountEach(SortSet(DuplicatesOf(records)), DuplicateGradeRecord, [], MissingLearnerMark);
    SortSetMembers(roster - StudentsOf(records));
  }

  // ---- No findings means every learner has one complete record ----

  ghost predicate OneToOne(records: seq<Record>, roster: set<string>) {
    && (forall i, j :: 0 <= i < j < |records| ==> records[i].student != records[j].student)
    && StudentsOf(records) == roster
  }

  ghost predicate FillsRequired(scores: Scores, components: seq<Component>) {
    forall k :: 0 <= k < |components| && components[k].required ==> Get(scores, components[k].id) != Blank
  }

  ghost predicate RequiredFilled(records: seq<Record>, components: seq<Component>) {
    forall i :: 0 <= i < |records| ==> FillsRequired(records[i].scores, components)
  }

  lemma {:induction false} NoMissingComponents(components: seq<Component>, scores: Scores)
    ensures MissingComponents(components, scores) == [] <==> FillsRequired(scores, components)
  {
    if components != [] {
      NoMissingComponents(components[..|components| - 1], scores);
      assert components == components[..|components| - 1] + [components[|components| - 1]];
    }
  }

  lemma FilledOfOneMore(records: seq<Record>, components: seq<Component>)
    requires records != []
    ensures var init, last := records[..|records| - 1], records[|records| - 1];
            RequiredFilled(records, components) <==>
            RequiredFilled(init, components) && FillsRequired(last.scores, components)
  {
    hide FillsRequired;
    assert records == records[..|records| - 1] + [records[|records| - 1]];
  }

  lemma {:induction false} NoRecordFindings(records: seq<Record>, roster: set<string>, components: seq<Component>)
    ensures RecordFindings(records, roster, components) == [] <==>
            StudentsOf(records) <= roster && RequiredFilled(records, components)
  {
    if records != [] {
      hide StudentsOf, DuplicatesOf, RequiredFilled, FillsRequired;
      var n := |records| - 1;
      var init, last := records[..n], records[n];
      NoRecordFindings(init, roster, components);
      NoMissingComponents(components, last.scores);
      OneMoreRecord(records, n);
      assert records[..n + 1] == records;
      FilledOfOneMore(records, components);
    }
  }

  lemma NoFindings(records: seq<Record>, roster: set<string>, components: seq<Component>)
    ensures MissingMarks(records, roster, components) == [] <==>
            OneToOne(records, roster) && RequiredFilled(records, components)
  {
    var all := AllFindings(records, roster, components);
    SortPermutes(all, FindingLe);
    NoRecordFindings(records, roster, components);
    SortSetMembers(roster - StudentsOf(records));
    SortSetMembers(DuplicatesOf(records));
    assert |all| == 0 <==> RecordFindings(records, roster, components) == []
                           && |roster - StudentsOf(records)| == 0 && |DuplicatesOf(records)| == 0;
    assert DuplicatesOf(records) == {} <==>
        forall i, j :: 0 <= i < j < |records| ==> records[i].student != records[j].student by {
      forall i, j | 0 <= i < j < |records| && records[i].student == records[j].student
        ensures records[j].student in DuplicatesOf(records)
      {
      }
    }
  }

  // ---- Status and snapshots ----

  datatype Status = Complete | Partial | Blocked | Failed | Stale

  function DetermineStatus(findings: seq<Finding>, anyInvalid: bool, anyRecord: bool): Status {
    if anyInvalid then Failed
    else if !anyRecord then Blocked
    else if findings != [] then Partial
    else Complete
  }

  ghost predicate Compiles(r: Record, a: Assessment) {
    Summarize(r.scores, a.components, a.maxScore).Ok?
  }

  datatype ScoreSummary = ScoreSummary(rawScore: int, normalized: Option<int>, maxScore: int, percentage: int)

  function ScoreOf(r: Record, a: Assessment): ScoreSummary {
    ScoreSummary(r.rawScore, r.normalized, a.maxScore,
                 if a.maxScore <= 0 then 0 else RoundHalfUp(10000 * r.rawScore, a.maxScore))
  }

  datatype Snapshot = Snapshot(
    learner: string,
    context: string,
    score: ScoreSummary,
    components: Summary,
    missing: seq<Finding>,
    status: Status,
    sources: set<nat>)

  predicate RecordLe(r: Record, s: Record) { LexLe(r.student, s.student) }

  function FindingsAbout(fs: seq<Finding>, learner: string): seq<Finding> {
    if fs == [] then []
    else FindingsAbout(fs[..|fs| - 1], learner) + (if fs[|fs| - 1].learner == learner then [fs[|fs| - 1]] else [])
  }

  ghost function SnapshotOf(r: Record, a: Assessment, findings: seq<Finding>, status: Status,
                            sources: set<nat>): Snapshot
    requires Compiles(r, a)
  {
    Snapshot(r.student, a.context, ScoreOf(r, a), Summarize(r.scores, a.components, a.maxScore).value,
             FindingsAbout(findings, r.student), status, sources)
  }

  /** None when some record's component summary is refused, which aborts the compilation. */
  ghost function SnapshotsOf(records: seq<Record>, a: Assessment, findings: seq<Finding>, status: Status,
                             sources: set<nat>)
    : Option<seq<Snapshot>>
  {
    if records == [] then Some([])
    else
      var r := records[|records| - 1];
      match SnapshotsOf(records[..|records| - 1], a, findings, status, sources)
      case None => None
      case Some(done) => if Compiles(r, a) then Some(done + [SnapshotOf(r, a, findings, status, sources)]) else None
  }

  function SourcesOf(records: seq<Record>): set<nat> {
    set i | 0 <= i < |records| :: records[i].batch
  }

  /** What one compilation writes. */
  datatype Compiled = Compiled(
    status: Status,
    expected: nat,
    submitted: nat,
    missing: nat,
    percentage: int,
    sources: set<nat>,
    snapshots: seq<Snapshot>)

  ghost predicate AllCompile(records: seq<Record>, a: Assessment) {
    forall r :: r in records ==> Compiles(r, a)
  }

  ghost function Compile(records: seq<Record>, a: Assessment): Option<Compiled> {
    var findings := MissingMarks(records, a.roster, a.components);
    var status := DetermineStatus(findings, !AllCompile(records, a), records != []);
    var submitted := |StudentsOf(records) * a.roster|;
    match SnapshotsOf(Sort(records, RecordLe), a, findings, status, SourcesOf(records))
    case None => None
    case Some(snapshots) =>
      Some(Compiled(status, |a.roster|, submitted, CountCode(findings, MissingLearnerMark),
                    CompletionPercentage(submitted, |a.roster|), SourcesOf(records), snapshots))
  }

  /** `detect_invalid_component_scores`: the learners whose summary is refused, in record order. */
  method DetectInvalid(records: seq<Record>, a: Assessment) returns (invalid: seq<string>)
    ensures invalid != [] <==> !AllCompile(records, a)
    ensures forall s :: s in invalid <==>
              exists i :: 0 <= i < |records| && records[i].student == s && !Compiles(records[i], a)
  {
    invalid := [];
    for i := 0 to |records|
      invariant invalid != [] <==> exists k :: 0 <= k < i && !Compiles(records[k], a)
      invariant forall s :: s in invalid <==>
                  exists k :: 0 <= k < i && records[k].student == s && !Compiles(records[k], a)
    {
      var summary := BuildComponentSummary(records[i].scores, a.components, a.maxScore);
      if summary.Rejected? {
        assert !Compiles(records[i], a);
        invalid := invalid + [records[i].student];
      }
    }
  }

  method BuildLearnerSnapshots(records: seq<Record>, a: Assessment, findings: seq<Finding>, status: Status)
    returns (snapshots: Option<seq<Snapshot>>)
    ensures snapshots == SnapshotsOf(Sort(records, RecordLe), a, findings, status, SourcesOf(records))
  {
    hide Sort, SourcesOf, ScoreOf, FindingsAbout, Summarize;
    var order := Sort(records, RecordLe);
    var built := [];
    for i := 0 to |order|
      invariant SnapshotsOf(order[..i], a, findings, status, SourcesOf(records)) == Some(built)
    {
      assert order[..i + 1][..i] == order[..i];
      var summary := BuildComponentSummary(order[i].scores, a.components, a.maxScore);
      if summary.Rejected? {
        AbortStays(order, i + 1, a, findings, status, SourcesOf(records));
        return None;
      }
      built := built + [Snapshot(order[i].student, a.context, ScoreOf(order[i], a), summary.value,
                                 FindingsAbout(findings, order[i].student), status, SourcesOf(records))];
    }
    assert order[..|order|] == order;
    snapshots := Some(built);
  }

  lemma {:induction false} AbortStays(records: seq<Record>, k: nat, a: Assessment, findings: seq<Finding>,
                                      status: Status, sources: set<nat>)
    requires k <= |records| && SnapshotsOf(records[..k], a, findings, status, sources) == None
    ensures SnapshotsOf(records, a, findings, status, sources) == None
    decreases |records|
  {
    if k < |records| {
      assert records[..|records| - 1][..k] == records[..k];
      AbortStays(records[..|records| - 1], k, a, findings, status, sources);
    } else {
      assert records[..k] == records;
    }
  }

  method CompileRecords(records: seq<Record>, a: Assessment) returns (compiled: Option<Compiled>)
    ensures compiled == Compile(records, a)
  {
    var findings := DetectMissingMarks(records, a.roster, a.components);
    var invalid := DetectInvalid(records, a);
    var status := DetermineStatus(findings, invalid != [], records != []);
    var submitted := |StudentsOf(records) * a.roster|;
    var snapshots := BuildLearnerSnapshots(records, a, findings, status);
    if snapshots == None {
      return None;
    }
    compiled := Some(Compiled(status, |a.roster|, submitted, CountCode(findings, MissingLearnerMark),
                              CompletionPercentage(submitted, |a.roster|), SourcesOf(records), snapshots.value));
  }

  // ---- What a compilation says ----

  lemma {:induction false} SnapshotsFollowRecords(records: seq<Record>, a: Assessment, findings: seq<Finding>,
                                                  status: Status, sources: set<nat>)
    ensures SnapshotsOf(records, a, findings, status, sources).Some? <==>
            AllCompile(records, a)
    ensures SnapshotsOf(records, a, findings, status, sources).Some? ==>
              var built := SnapshotsOf(records, a, findings, status, sources).value;
              |built| == |records| &&
              forall i :: 0 <= i < |records| ==>
                Compiles(records[i], a) && built[i] == SnapshotOf(records[i], a, findings, status, sources)
  {
    if records != [] {
      var n := |records| - 1;
      SnapshotsFollowRecords(records[..n], a, findings, status, sources);
      assert records == records[..n] + [records[n]];
    }
  }

  /** The parts of a compilation that its snapshots depend on. */
  lemma SnapshotsOfCompilation(records: seq<Record>, a: Assessment)
    requires Compile(records, a).Some?
    ensures var c := Compile(records, a).value;
            && c.sources == SourcesOf(records)
            && SnapshotsOf(Sort(records, RecordLe), a, MissingMarks(records, a.roster, a.components),
                           c.status, c.sources)
               == Some(c.snapshots)
  {
    hide MissingMarks, SnapshotsOf, Sort, DetermineStatus, CountCode, AllCompile,
         SourcesOf, StudentsOf, CompletionPercentage;
  }

  lemma SortingKeepsValidity(records: seq<Record>, a: Assessment)
    ensures AllCompile(Sort(records, RecordLe), a) <==> AllCompile(records, a)
  {
    SortMembers(records, RecordLe);
  }

  /** A compilation aborts exactly when some record's component summary is refused. */
  lemma CompileAborts(records: seq<Record>, a: Assessment)
    ensures Compile(records, a) == None <==> !AllCompile(records, a)
  {
    var findings := MissingMarks(records, a.roster, a.components);
    var status := DetermineStatus(findings, !AllCompile(records, a), records != []);
    SnapshotsFollowRecords(Sort(records, RecordLe), a, findings, status, SourcesOf(records));
    SortingKeepsValidity(records, a);
  }

  /**
   What commits is complete, partial or blocked, never failed.  It is complete exactly
   when there are records, one for each learner of the roster and no other, with every
   required component filled; and submitted and missing add up to expected.
   */
  lemma CompilationIsExact(records: seq<Record>, a: Assessment)
    requires Compile(records, a).Some?
    ensures var c := Compile(records, a).value;
            && (c.status == Complete || c.status == Partial || c.status == Blocked)
            && (c.status == Blocked <==> records == [])
            && (c.status == Complete <==>
                  records != [] && OneToOne(records, a.roster) && RequiredFilled(records, a.components))
            && c.submitted + c.missing == c.expected == |a.roster|
            && 0 <= c.percentage <= 10000
  {
    CompileAborts(records, a);
    NoFindings(records, a.roster, a.components);
    AbsencesCounted(records, a.roster, a.components);
    var present, absent := StudentsOf(records) * a.roster, a.roster - StudentsOf(records);
    assert present + absent == a.roster;
    assert |present + absent| == |present| + |absent|;
    PercentageInRangeAndMonotone(|present|, |present|, |a.roster|);
  }

  lemma RecordOrder()
    ensures TotalPreorder(RecordLe)
  {
    forall x: Record, y: Record
      ensures RecordLe(x, y) || RecordLe(y, x)
    {
      LexTotal(x.student, y.student);
    }
    forall x: Record, y: Record, z: Record | RecordLe(x, y) && RecordLe(y, z)
      ensures RecordLe(x, z)
    {
      LexTransitive(x.student, y.student, z.student);
    }
  }

  lemma SortedByLearner(records: seq<Record>)
    ensures var order := Sort(records, RecordLe);
            forall k, l :: 0 <= k < l < |order| ==> LexLe(order[k].student, order[l].student)
  {
    RecordOrder();
    SortSorts(records, RecordLe);
    var order := Sort(records, RecordLe);
    assert forall k, l :: 0 <= k < l < |order| ==> RecordLe(order[k], order[l]);
  }

  /** The snapshot that this compilation of `records` takes of the record. */
  ghost predicate IsShotOf(shot: Snapshot, r: Record, records: seq<Record>, a: Assessment, c: Compiled) {
    Compiles(r, a) && shot == SnapshotOf(r, a, MissingMarks(records, a.roster, a.components), c.status, c.sources)
  }

  /** The snapshots are those of the records in the order of learners. */
  lemma ShotsOfSorted(records: seq<Record>, a: Assessment)
    requires Compile(records, a).Some?
    ensures var c, order := Compile(records, a).value, Sort(records, RecordLe);
            && |c.snapshots| == |order|
            && forall k :: 0 <= k < |order| ==> IsShotOf(c.snapshots[k], order[k], records, a, c)
  {
    hide Compile, MissingMarks, Sort, SnapshotsOf;
    var c := Compile(records, a).value;
    SnapshotsOfCompilation(records, a);
    SnapshotsFollowRecords(Sort(records, RecordLe), a, MissingMarks(records, a.roster, a.components),
                           c.status, c.sources);
  }

  /** One snapshot per record and one record per snapshot, in the order of learners, with that record's scores. */
  lemma SnapshotsMatchRecords(records: seq<Record>, a: Assessment)
    requires Compile(records, a).Some?
    ensures var c := Compile(records, a).value;
            && |c.snapshots| == |records|
            && (forall shot :: shot in c.snapshots ==> exists r :: r in records && IsShotOf(shot, r, records, a, c))
            && (forall r :: r in records ==> exists shot :: shot in c.snapshots && IsShotOf(shot, r, records, a, c))
            && (forall k, l :: 0 <= k < l < |c.snapshots| ==> LexLe(c.snapshots[k].learner, c.snapshots[l].learner))
  {
    hide Compile, Sort;
    var c, order := Compile(records, a).value, Sort(records, RecordLe);
    ShotsOfSorted(records, a);
    SortPermutes(records, RecordLe);
    SortMembers(records, RecordLe);
    SortedByLearner(records);
    assert forall k :: 0 <= k < |order| ==> c.snapshots[k].learner == order[k].student by {
      ShotsNameLearners(c, order, records, a);
    }
    hide IsShotOf;
    forall shot | shot in c.snapshots
      ensures exists r :: r in records && IsShotOf(shot, r, records, a, c)
    {
      var k :| 0 <= k < |order| && c.snapshots[k] == shot;
      assert order[k] in order && IsShotOf(shot, order[k], records, a, c);
    }
    forall r | r in records
      ensures exists shot :: shot in c.snapshots && IsShotOf(shot, r, records, a, c)
    {
      var k :| 0 <= k < |order| && order[k] == r;
      assert c.snapshots[k] in c.snapshots && IsShotOf(c.snapshots[k], r, records, a, c);
    }
  }

  lemma ShotsNameLearners(c: Compiled, order: seq<Record>, records: seq<Record>, a: Assessment)
    requires |c.snapshots| == |order|
    requires forall k :: 0 <= k < |order| ==> IsShotOf(c.snapshots[k], order[k], records, a, c)
    ensures forall k :: 0 <= k < |order| ==> c.snapshots[k].learner == order[k].student
  {
    hide MissingMarks, Compiles;
    assert forall k :: 0 <= k < |order| ==> IsShotOf(c.snapshots[k], order[k], records, a, c);
  }
}
