/** The runs of an assessment are a cache over its records: at most one is current, and it is coherent. */
module CacheProofs {
  import opened Options
  import opened Sorting
  import opened Text
  import opened Marks
  import opened Compilation
  import opened CompilationLaws
  import opened Gradebook

  /** A current run is the last of its assessment and repeats what the records it saw still say. */
  ghost predicate RunOk(cfg: Config, book: Book, i: nat)
    requires i < |book.runs|
  {
    var run := book.runs[i];
    && (forall j :: i < j < |book.runs| ==> book.runs[j].assessment != run.assessment)
    && run.assessment in cfg.assessments && run.seen <= |book.records|
    && Compile(RecordsOf(book.records[..run.seen], run.assessment), cfg.assessments[run.assessment])
       == Some(run.compiled)
    && run.status == run.compiled.status
  }

  ghost predicate CacheInv(cfg: Config, book: Book) {
    forall i :: 0 <= i < |book.runs| && book.runs[i].status != Stale ==> RunOk(cfg, book, i)
  }

  lemma {:induction false} RecordsOfExtends(records: seq<Record>, more: seq<Record>, assessment: nat)
    ensures RecordsOf(records + more, assessment) == RecordsOf(records, assessment) + RecordsOf(more, assessment)
  {
    if more == [] {
      assert records + more == records;
    } else {
      var n := |more| - 1;
      RecordsOfExtends(records, more[..n], assessment);
      assert (records + more)[..|records + more| - 1] == records + more[..n];
    }
  }

  lemma {:induction false} RecordsOfOthers(records: seq<Record>, i: nat, r: Record, assessment: nat)
    requires i < |records| && r.assessment == records[i].assessment != assessment
    ensures RecordsOf(records[i := r], assessment) == RecordsOf(records, assessment)
  {
    var n := |records| - 1;
    if i < n {
      RecordsOfOthers(records[..n], i, r, assessment);
      assert records[i := r][..n] == records[..n][i := r];
    } else {
      assert records[i := r][..n] == records[..n];
    }
  }

  lemma {:induction false} RecordsOfMembers(records: seq<Record>, assessment: nat)
    ensures forall r :: r in RecordsOf(records, assessment) <==> r in records && r.assessment == assessment
  {
    if records != [] {
      var n := |records| - 1;
      RecordsOfMembers(records[..n], assessment);
      assert records == records[..n] + [records[n]];
    }
  }

  // ---- The commands ----

  /** New records lie beyond what the runs have seen. */
  lemma MoreRecordsKeepCache(cfg: Config, book: Book, book': Book)
    requires CacheInv(cfg, book) && book'.runs == book.runs && book.records <= book'.records
    ensures CacheInv(cfg, book')
  {
    forall i | 0 <= i < |book'.runs| && book'.runs[i].status != Stale
      ensures RunOk(cfg, book', i)
    {
      assert RunOk(cfg, book, i);
      assert book'.records[..book.runs[i].seen] == book.records[..book.runs[i].seen];
    }
  }

  /** A corrected record can only matter to the runs of its assessment, and they are stale now. */
  lemma CorrectionKeepsCache(cfg: Config, book: Book, book': Book, id: nat, r: Record)
    requires CacheInv(cfg, book) && id < |book.records| && r.assessment == book.records[id].assessment
    requires book'.records == book.records[id := r] && book'.runs == StaleRuns(book.runs, r.assessment)
    ensures CacheInv(cfg, book')
  {
    forall i | 0 <= i < |book'.runs| && book'.runs[i].status != Stale
      ensures RunOk(cfg, book', i)
    {
      var run := book.runs[i];
      assert RunOk(cfg, book, i) && run.assessment != r.assessment;
      if id < run.seen {
        RecordsOfOthers(book.records[..run.seen], id, r, run.assessment);
        assert book'.records[..run.seen] == book.records[..run.seen][id := r];
      } else {
        assert book'.records[..run.seen] == book.records[..run.seen];
      }
    }
  }

  lemma OldRunsAfterCompile(cfg: Config, book: Book, book': Book, run: Run, i: nat)
    requires CacheInv(cfg, book) && i < |book.runs| && book'.records == book.records
    requires book'.runs == StaleRuns(book.runs, run.assessment) + [run] && book'.runs[i].status != Stale
    ensures RunOk(cfg, book', i)
  {
    assert RunOk(cfg, book, i);
    assert book'.runs[i] == book.runs[i] && book.runs[i].assessment != run.assessment;
  }

  lemma CompileKeepsCache(cfg: Config, book: Book, book': Book, run: Run)
    requires CacheInv(cfg, book) && run.assessment in cfg.assessments
    requires run.seen == |book.records| && run.status == run.compiled.status
    requires Compile(RecordsOf(book.records, run.assessment), cfg.assessments[run.assessment]) == Some(run.compiled)
    requires book'.records == book.records && book'.runs == StaleRuns(book.runs, run.assessment) + [run]
    ensures CacheInv(cfg, book')
  {
    forall i | 0 <= i < |book'.runs| && book'.runs[i].status != Stale
      ensures RunOk(cfg, book', i)
    {
      if i < |book.runs| {
        OldRunsAfterCompile(cfg, book, book', run, i);
      } else {
        assert book.records[..|book.records|] == book.records;
      }
    }
  }

  lemma DoKeepsCache(cfg: Config, book: Book, authorized: bool, c: Command)
    requires CacheInv(cfg, book)
    ensures CacheInv(cfg, Do(cfg, book, authorized, c).book)
  {
    OnlyAcceptedChanges(cfg, book, authorized, c);
    var reply := Do(cfg, book, authorized, c);
    if reply.outcome == Accepted {
      if c.Apply? {
        var id := book.corrections[c.correction].record;
        CorrectionKeepsCache(cfg, book, reply.book, id, reply.book.records[id]);
      } else if c.CompileRun? {
        CompileKeepsCache(cfg, book, reply.book, reply.book.runs[|book.runs|]);
      } else {
        MoreRecordsKeepCache(cfg, book, reply.book);
      }
    }
  }

  lemma {:induction false} StoryCache(s: Story, k: nat)
    requires IsStory(s) && k < |s.books|
    ensures CacheInv(s.cfg, s.books[k])
  {
    if 0 < k {
      StoryCache(s, k - 1);
      assert IsNext(s, k - 1);
      DoKeepsCache(s.cfg, s.books[k - 1], s.entries[k - 1].authorized, s.entries[k - 1].command);
    }
  }

  // ---- Coherence ----

  ghost predicate IsCurrent(book: Book, i: nat) {
    i < |book.runs| && book.runs[i].status != Stale
  }

  /** Every run of a stored assessment other than its last is stale. */
  lemma OneCurrentRun(s: Story, k: nat, i: nat)
    requires IsStory(s) && k < |s.books| && IsCurrent(s.books[k], i)
    ensures forall j :: 0 <= j < |s.books[k].runs| && s.books[k].runs[j].assessment == s.books[k].runs[i].assessment ==>
              j <= i && (s.books[k].runs[j].status != Stale ==> j == i)
  {
    StoryCache(s, k);
    assert RunOk(s.cfg, s.books[k], i);
    forall j | 0 <= j < |s.books[k].runs| && s.books[k].runs[j].assessment == s.books[k].runs[i].assessment
      ensures j <= i && (s.books[k].runs[j].status != Stale ==> j == i)
    {
      if s.books[k].runs[j].status != Stale {
        assert RunOk(s.cfg, s.books[k], j);
      }
    }
  }

  /** What a run says of a learner agrees with the learner's present record. */
  ghost predicate Agrees(shot: Snapshot, r: Record, a: Assessment) {
    && shot.learner == r.student
    && Compiles(r, a)
    && shot.score == ScoreOf(r, a)
    && shot.components == Summarize(r.scores, a.components, a.maxScore).value
    && shot.context == a.context
  }

  /**
   Cache coherence, over every interleaving of submissions, corrections and
   compilations: each snapshot of a current run has the score and component facts that
   rebuilding it from the present records would give.
   */
  lemma CurrentRunIsCoherent(s: Story, k: nat, i: nat, n: nat)
    requires IsStory(s) && k < |s.books| && IsCurrent(s.books[k], i)
    requires n < |s.books[k].runs[i].compiled.snapshots|
    ensures var book := s.books[k];
            var run := book.runs[i];
            && run.assessment in s.cfg.assessments
            && exists r :: r in book.records && r.assessment == run.assessment
                           && Agrees(run.compiled.snapshots[n], r, s.cfg.assessments[run.assessment])
  {
    StoryCache(s, k);
    var book := s.books[k];
    var run := book.runs[i];
    assert RunOk(s.cfg, book, i);
    var a, seen := s.cfg.assessments[run.assessment], RecordsOf(book.records[..run.seen], run.assessment);
    SnapshotsMatchRecords(seen, a);
    RecordsOfMembers(book.records[..run.seen], run.assessment);
    assert run.compiled.snapshots[n] in run.compiled.snapshots;
    var r :| r in seen && IsShotOf(run.compiled.snapshots[n], r, seen, a, run.compiled);
    assert r in book.records && Agrees(run.compiled.snapshots[n], r, a);
  }

  /** So it shows that record: scores, percentage and every component fact. */
  lemma CurrentRunShowsRecords(s: Story, k: nat, i: nat, n: nat)
    requires IsStory(s) && k < |s.books| && IsCurrent(s.books[k], i)
    requires n < |s.books[k].runs[i].compiled.snapshots|
    ensures var book := s.books[k];
            var run := book.runs[i];
            && run.assessment in s.cfg.assessments
            && exists r :: r in book.records && r.assessment == run.assessment
                           && ShowsRecord(run.compiled.snapshots[n], r, s.cfg.assessments[run.assessment])
  {
    hide Compiles, ScoreOf, Summarize, ShowsRecord, IsStory;
    CurrentRunIsCoherent(s, k, i, n);
    var run := s.books[k].runs[i];
    var a, shot := s.cfg.assessments[run.assessment], run.compiled.snapshots[n];
    var r :| r in s.books[k].records && r.assessment == run.assessment && Agrees(shot, r, a);
    PartsShowRecord(shot, r, a);
  }

  lemma SnapshotPerRecord(records: seq<Record>, a: Assessment)
    requires Compile(records, a).Some?
    ensures |Compile(records, a).value.snapshots| == |records|
    ensures forall r :: r in records ==>
              exists shot :: shot in Compile(records, a).value.snapshots && Agrees(shot, r, a)
  {
    hide Compile, MissingMarks;
    var c := Compile(records, a).value;
    SnapshotsMatchRecords(records, a);
    forall r | r in records
      ensures exists shot :: shot in c.snapshots && Agrees(shot, r, a)
    {
      var shot :| shot in c.snapshots && IsShotOf(shot, r, records, a, c);
      assert Agrees(shot, r, a);
    }
  }

  /** The same, against an actual recompilation. */
  lemma RecompilationKeepsFacts(s: Story, k: nat, i: nat, n: nat)
    requires IsStory(s) && k < |s.books| && IsCurrent(s.books[k], i)
    requires n < |s.books[k].runs[i].compiled.snapshots|
    requires var run := s.books[k].runs[i];
             && run.assessment in s.cfg.assessments
             && Compile(RecordsOf(s.books[k].records, run.assessment), s.cfg.assessments[run.assessment]).Some?
    ensures var run := s.books[k].runs[i];
            var again :=
                Compile(RecordsOf(s.books[k].records, run.assessment), s.cfg.assessments[run.assessment]).value;
            exists shot :: shot in again.snapshots && shot.learner == run.compiled.snapshots[n].learner
                           && shot.score == run.compiled.snapshots[n].score
                           && shot.components == run.compiled.snapshots[n].components
  {
    CurrentRunIsCoherent(s, k, i, n);
    var book := s.books[k];
    var run := book.runs[i];
    var a := s.cfg.assessments[run.assessment];
    var r :| r in book.records && r.assessment == run.assessment && Agrees(run.compiled.snapshots[n], r, a);
    RecordsOfMembers(book.records, run.assessment);
    SnapshotPerRecord(RecordsOf(book.records, run.assessment), a);
    var shot :| shot in Compile(RecordsOf(book.records, run.assessment), a).value.snapshots && Agrees(shot, r, a);
  }

  /**
   When is a current run the same as a recompilation, counts and status included?
   Exactly when it has a snapshot for every present record: a submission after the run
   does not make it stale.
   */
  lemma CurrentRunIsFresh(s: Story, k: nat, i: nat)
    requires IsStory(s) && k < |s.books| && IsCurrent(s.books[k], i)
    ensures var book := s.books[k];
            var run := book.runs[i];
            && run.assessment in s.cfg.assessments
            && (Compile(RecordsOf(book.records, run.assessment), s.cfg.assessments[run.assessment])
                == Some(run.compiled)
                <==> |run.compiled.snapshots| == |RecordsOf(book.records, run.assessment)|)
  {
    hide Compile, IsStory;
    StoryCache(s, k);
    var book := s.books[k];
    var run := book.runs[i];
    assert RunOk(s.cfg, book, i);
    var a, seen := s.cfg.assessments[run.assessment], RecordsOf(book.records[..run.seen], run.assessment);
    var now := RecordsOf(book.records, run.assessment);
    assert book.records[..run.seen] + book.records[run.seen..] == book.records;
    RecordsOfExtends(book.records[..run.seen], book.records[run.seen..], run.assessment);
    SnapshotPerRecord(seen, a);
    if Compile(now, a) == Some(run.compiled) {
      SnapshotPerRecord(now, a);
    }
    assert |now| == |seen| ==> now == seen;
  }

  // ---- A current run that misses a later submission ----

  function Form(hash: seq<Row> -> string): Config {
    Config(map[0 := Assessment(10, [], {"s", "t"}, "")], _ => "", hash, (_, _) => None)
  }

  ghost predicate IsPlain(cfg: Config) {
    cfg == Form(cfg.payloadHash)
  }

  function OneRow(student: string): Row {
    Row(student, map[], Score(5), "")
  }

  lemma OneRowIsValid(student: string)
    requires Strip(student) == student != "" && student in {"s", "t"}
    ensures ValidateRows([OneRow(student)], {"s", "t"}, 10, [], true) == Ok([MarkRow(student, Some(5), map[], "")])
  {
    var row, mark := OneRow(student), MarkRow(student, Some(5), map[], "");
    assert [row][..0] == [];
    assert CheckRows([], {"s", "t"}, 10, [], true) == Ok([]);
    assert CheckBounds(5, 10) == None;
    assert Students([]) == {};
    assert CheckRow(row, {}, {"s", "t"}, 10, [], true) == Ok(mark);
    assert [] + [mark] == [mark];
    assert CheckRows([row], {"s", "t"}, 10, [], true) == Ok([mark]);
  }

  function NewRecord(batch: nat, student: string): Record {
    Record(0, batch, student, 5, None, map[], "", 1)
  }

  lemma Submitting(cfg: Config, book: Book, teacher: UserId, student: string, key: string)
    requires IsPlain(cfg) && Strip(student) == student != "" && student in {"s", "t"} && Strip(key) == key != ""
    requires forall b :: b in book.batches ==> b.key != key && b.teacher != teacher
    requires forall r :: r in book.records ==> r.student != student
    ensures var reply := Do(cfg, book, true, Submit(teacher, 0, [OneRow(student)], key, true));
            && reply.outcome == Accepted
            && reply.book.records == book.records + [NewRecord(|book.batches|, student)]
            && reply.book.runs == book.runs
            && reply.book.batches == book.batches + [Batch(0, teacher, key, cfg.payloadHash([OneRow(student)]), 1)]
  {
    OneRowIsValid(student);
    BatchByKeyFinds(book.batches, key);
    assert !HasBatch(book.batches, 0, teacher);
    var marks := [MarkRow(student, Some(5), map[], "")];
    assert Insertable(book.records, marks, 0);
    assert NewRecords(marks, 0, |book.batches|) == [NewRecord(|book.batches|, student)];
  }

  lemma OneRecordCompiles(cfg: Config)
    requires IsPlain(cfg)
    ensures var compiled := Compile([NewRecord(0, "s")], cfg.assessments[0]);
            compiled.Some? && compiled.value.status != Stale && |compiled.value.snapshots| == 1
  {
    var a := cfg.assessments[0];
    var r := NewRecord(0, "s");
    assert FactsOf([], map[]) == Ok(([], []));
    assert Known(map[], []) == {};
    assert Compiles(r, a);
    CompileAborts([r], a);
    CompilationIsExact([r], a);
    SnapshotPerRecord([r], a);
  }

  lemma Compiling(cfg: Config, book: Book)
    requires IsPlain(cfg) && book.records == [NewRecord(0, "s")] && book.runs == []
    ensures var reply := Do(cfg, book, true, CompileRun(0));
            && reply.outcome == Accepted && |reply.book.runs| == 1
            && reply.book.runs[0].assessment == 0 && reply.book.runs[0].status != Stale
            && |reply.book.runs[0].compiled.snapshots| == 1
            && reply.book.records == book.records && reply.book.batches == book.batches
  {
    assert book.records[..0] == [];
    assert RecordsOf(book.records, 0) == [] + [NewRecord(0, "s")] == [NewRecord(0, "s")];
    OneRecordCompiles(cfg);
    AcceptedCompilation(cfg, book, 0, Compile(RecordsOf(book.records, 0), cfg.assessments[0]).value);
  }

  /** A story that ends with a current run which differs from a recompilation. */
  ghost predicate EndsOutdated(s: Story) {
    && IsStory(s) && |s.entries| == 3
    && IsCurrent(s.books[3], 0) && s.books[3].runs[0].assessment == 0 && 0 in s.cfg.assessments
    && Compile(RecordsOf(s.books[3].records, 0), s.cfg.assessments[0]) != Some(s.books[3].runs[0].compiled)
  }

  lemma LateSubmissionIsMissed(hash: seq<Row> -> string)
    ensures exists s :: EndsOutdated(s) && s.cfg.payloadHash == hash
  {
    hide Do, RecordsOf;
    var s0 := Story(Form(hash), [EMPTY], []);
    assert IsStory(s0);
    assert Strip("s") == "s" && Strip("t") == "t" && Strip("b") == "b" && Strip("c") == "c";
    var c1, c3 := Submit(1, 0, [OneRow("s")], "b", true), Submit(2, 0, [OneRow("t")], "c", true);
    Submitting(s0.cfg, EMPTY, 1, "s", "b");
    var s1 := Continued(s0, c1);
    ContinuedIsStory(s0, c1);
    Compiling(s1.cfg, s1.books[1]);
    var s2 := Continued(s1, CompileRun(0));
    ContinuedIsStory(s1, CompileRun(0));
    assert "b" != "c" && "s" != "t";
    Submitting(s2.cfg, s2.books[2], 2, "t", "c");
    var s3 := Continued(s2, c3);
    ContinuedIsStory(s2, c3);
    TwoRecords(s3.books[3].records);
    CurrentRunIsFresh(s3, 3, 0);
    assert EndsOutdated(s3);
  }

  lemma TwoRecords(records: seq<Record>)
    requires records == [NewRecord(0, "s")] + [NewRecord(1, "t")]
    ensures |RecordsOf(records, 0)| == 2
  {
    RecordsOfExtends([NewRecord(0, "s")], [NewRecord(1, "t")], 0);
  }
}
