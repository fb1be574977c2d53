/** Submission is idempotent per key and writes each learner's record once. */
module SubmissionProofs {
  import opened Options
  import opened Text
  import opened Marks
  import opened Compilation
  import opened Gradebook

  function CountBatch(records: seq<Record>, batch: nat): nat {
    if records == [] then 0
    else CountBatch(records[..|records| - 1], batch) + (if records[|records| - 1].batch == batch then 1 else 0)
  }

  ghost predicate BatchesOk(cfg: Config, batches: seq<Batch>) {
    && (forall i :: 0 <= i < |batches| ==> batches[i].assessment in cfg.assessments && batches[i].key != "")
    && (forall i, j :: 0 <= i < j < |batches| ==>
          batches[i].key != batches[j].key
          && (batches[i].assessment != batches[j].assessment || batches[i].teacher != batches[j].teacher))
  }

  ghost predicate RecordsOk(batches: seq<Batch>, records: seq<Record>) {
    && (forall r :: 0 <= r < |records| ==>
          records[r].batch < |batches| && records[r].assessment == batches[records[r].batch].assessment)
    && (forall q, r :: 0 <= q < r < |records| ==>
          records[q].assessment != records[r].assessment || records[q].student != records[r].student)
  }

  ghost predicate CountsOk(batches: seq<Batch>, records: seq<Record>) {
    forall b :: 0 <= b < |batches| ==> CountBatch(records, b) == batches[b].recordCount
  }

  ghost predicate SubmissionInv(cfg: Config, book: Book) {
    && BatchesOk(cfg, book.batches)
    && RecordsOk(book.batches, book.records)
    && CountsOk(book.batches, book.records)
  }

  lemma {:induction false} CountNewBatch(records: seq<Record>, rows: seq<Record>, batch: nat)
    requires (forall i :: 0 <= i < |records| ==> records[i].batch != batch)
    requires (forall i :: 0 <= i < |rows| ==> rows[i].batch == batch)
    ensures CountBatch(records + rows, batch) == |rows|
    decreases |records| + |rows|
  {
    if rows != [] {
      CountNewBatch(records, rows[..|rows| - 1], batch);
      assert (records + rows)[..|records + rows| - 1] == records + rows[..|rows| - 1];
    } else if records != [] {
      CountNewBatch(records[..|records| - 1], rows, batch);
      assert records + rows == records;
      assert records[..|records| - 1] + rows == records[..|records| - 1];
    }
  }

  lemma {:induction false} CountOtherBatch(records: seq<Record>, rows: seq<Record>, batch: nat)
    requires forall i :: 0 <= i < |rows| ==> rows[i].batch != batch
    ensures CountBatch(records + rows, batch) == CountBatch(records, batch)
    decreases |rows|
  {
    if rows == [] {
      assert records + rows == records;
    } else {
      CountOtherBatch(records, rows[..|rows| - 1], batch);
      assert (records + rows)[..|records + rows| - 1] == records + rows[..|rows| - 1];
    }
  }

  lemma {:induction false} CountIgnoresContents(records: seq<Record>, records': seq<Record>, batch: nat)
    requires |records| == |records'| && forall i :: 0 <= i < |records| ==> records[i].batch == records'[i].batch
    ensures CountBatch(records, batch) == CountBatch(records', batch)
  {
    if records != [] {
      CountIgnoresContents(records[..|records| - 1], records'[..|records| - 1], batch);
    }
  }

  lemma RecordsStayOk(batches: seq<Batch>, batch: Batch, records: seq<Record>, marks: seq<MarkRow>)
    requires RecordsOk(batches, records) && Insertable(records, marks, batch.assessment)
    requires forall i, j :: 0 <= i < j < |marks| ==> marks[i].studentId != marks[j].studentId
    ensures RecordsOk(batches + [batch], records + NewRecords(marks, batch.assessment, |batches|))
  {
    var rows := NewRecords(marks, batch.assessment, |batches|);
    var all := records + rows;
    forall q, r | 0 <= q < r < |all|
      ensures all[q].assessment != all[r].assessment || all[q].student != all[r].student
    {
      if |records| <= r {
        var i := r - |records|;
        assert all[r].student == marks[i].studentId;
        if |records| <= q {
          assert all[q].student == marks[q - |records|].studentId;
        }
      }
    }
  }

  lemma SubmitKeepsInv(cfg: Config, book: Book, c: Command)
    requires SubmissionInv(cfg, book) && c.Submit? && DoSubmit(cfg, book, c).outcome == Accepted
    ensures SubmissionInv(cfg, DoSubmit(cfg, book, c).book)
  {
    var book' := DoSubmit(cfg, book, c).book;
    var a := cfg.assessments[c.assessment];
    var marks := ValidateRows(c.rows, a.roster, a.maxScore, a.components, true).value;
    AcceptedStudentsAreDistinct(c.rows, a.roster, a.maxScore, a.components, true);
    var n := |book.batches|;
    var batch := book'.batches[n];
    BatchByKeyFinds(book.batches, Strip(c.key));
    RecordsStayOk(book.batches, batch, book.records, marks);
    var rows := NewRecords(marks, c.assessment, n);
    forall b | 0 <= b < |book'.batches|
      ensures CountBatch(book'.records, b) == book'.batches[b].recordCount
    {
      if b == n {
        CountNewBatch(book.records, rows, b);
      } else {
        CountOtherBatch(book.records, rows, b);
      }
    }
  }

  lemma CorrectedKeepsOwner(cfg: Config, r: Record, q: Correction)
    ensures var r' := Corrected(cfg, r, q);
            r'.batch == r.batch && r'.assessment == r.assessment && r'.student == r.student
  {
  }

  /** A correction changes what a record says, not whose it is. */
  lemma CorrectingKeepsInv(cfg: Config, book: Book, book': Book, id: nat, r: Record)
    requires SubmissionInv(cfg, book) && id < |book.records|
    requires book'.batches == book.batches && book'.records == book.records[id := r]
    requires r.batch == book.records[id].batch && r.assessment == book.records[id].assessment
    requires r.student == book.records[id].student
    ensures SubmissionInv(cfg, book')
  {
    forall b | 0 <= b < |book.batches|
      ensures CountBatch(book'.records, b) == CountBatch(book.records, b)
    {
      CountIgnoresContents(book.records, book'.records, b);
    }
  }

  lemma DoKeepsSubmissionInv(cfg: Config, book: Book, authorized: bool, c: Command)
    requires SubmissionInv(cfg, book)
    ensures SubmissionInv(cfg, Do(cfg, book, authorized, c).book)
  {
    OnlyAcceptedChanges(cfg, book, authorized, c);
    var reply := Do(cfg, book, authorized, c);
    if reply.outcome == Accepted {
      if c.Submit? {
        SubmitKeepsInv(cfg, book, c);
      } else if c.Apply? {
        hide SubmissionInv, Corrected;
        var id := book.corrections[c.correction].record;
        CorrectedKeepsOwner(cfg, book.records[id], book.corrections[c.correction]);
        CorrectingKeepsInv(cfg, book, reply.book, id, reply.book.records[id]);
      } else {
        hide BatchesOk, RecordsOk, CountsOk;
      }
    }
  }

  lemma {:induction false} StorySubmissions(s: Story, k: nat)
    requires IsStory(s) && k < |s.books|
    ensures SubmissionInv(s.cfg, s.books[k])
  {
    if 0 < k {
      StorySubmissions(s, k - 1);
      assert IsNext(s, k - 1);
      DoKeepsSubmissionInv(s.cfg, s.books[k - 1], s.entries[k - 1].authorized, s.entries[k - 1].command);
    }
  }

  /**
   In every state: one batch per key, one per teacher and assessment, one record per
   learner and assessment, and each batch counts its records.
   */
  lemma SubmissionsAreUnique(s: Story, k: nat)
    requires IsStory(s) && k < |s.books|
    ensures var book := s.books[k];
            && (forall i, j :: 0 <= i < j < |book.batches| ==>
                  book.batches[i].key != book.batches[j].key
                  && !(book.batches[i].assessment == book.batches[j].assessment
                       && book.batches[i].teacher == book.batches[j].teacher))
            && (forall q, r :: 0 <= q < r < |book.records| ==>
                  !(book.records[q].assessment == book.records[r].assessment
                    && book.records[q].student == book.records[r].student))
            && (forall b :: 0 <= b < |book.batches| ==> CountBatch(book.records, b) == book.batches[b].recordCount)
  {
    StorySubmissions(s, k);
  }

  lemma {:induction false} BatchesGrow(s: Story, i: nat, j: nat)
    requires IsStory(s) && i <= j < |s.books|
    ensures s.books[i].batches <= s.books[j].batches
    decreases j
  {
    if i < j {
      BatchesGrow(s, i, j - 1);
      assert IsNext(s, j - 1);
    }
  }

  lemma {:induction false} ByKeyIs(batches: seq<Batch>, key: string, i: nat)
    requires i < |batches| && batches[i].key == key
    requires forall k, l :: 0 <= k < l < |batches| ==> batches[k].key != batches[l].key
    ensures BatchByKey(batches, key) == Some(i)
  {
    BatchByKeyFinds(batches, key);
    if i < |batches| - 1 {
      ByKeyIs(batches[..|batches| - 1], key, i);
    } else {
      BatchByKeyFinds(batches[..|batches| - 1], key);
    }
  }

  /**
   Replay safety over any interleaving.  Once a submission is accepted, every later use
   of its key is answered without effect: the same teacher, assessment and payload get
   the batch it created, and everything else is refused.
   */
  lemma SubmissionIsIdempotent(s: Story, i: nat, j: nat, authorized: bool, again: Command)
    requires IsStory(s) && i < j < |s.books|
    requires var e := s.entries[i];
             e.command.Submit? && Do(s.cfg, s.books[i], e.authorized, e.command).outcome == Accepted
    requires again.Submit? && Strip(again.key) == Strip(s.entries[i].command.key)
    ensures var first, reply := s.entries[i].command, Do(s.cfg, s.books[j], authorized, again);
            && reply.book == s.books[j]
            && (reply.outcome == Replayed(|s.books[i].batches|) || reply.outcome == Refused)
            && (authorized && again.teacher == first.teacher && again.assessment == first.assessment
                && s.cfg.payloadHash(again.rows) == s.cfg.payloadHash(first.rows)
                ==> reply.outcome == Replayed(|s.books[i].batches|))
            && (again.teacher != first.teacher || again.assessment != first.assessment
                ==> reply.outcome == Refused)
            && (s.cfg.payloadHash(first.rows) != ""
                && s.cfg.payloadHash(again.rows) != s.cfg.payloadHash(first.rows)
                ==> reply.outcome == Refused)
  {
    assert IsNext(s, i);
    BatchesGrow(s, i + 1, j);
    StorySubmissions(s, j);
    var n := |s.books[i].batches|;
    assert s.books[i + 1].batches[n] == s.books[j].batches[n];
    ByKeyIs(s.books[j].batches, Strip(again.key), n);
  }
}
