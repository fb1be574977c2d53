/**
 The grading tables of one school and the commands that change them.  A command is
 one database transaction: it is accepted, answered from an earlier one, or refused
 without effect.  The `authorized` flag of a command stands for the role policies and,
 where the command needs it, for an assessment that is open and bound just now; the
 exception is that a requester never reviews or applies their own correction.  The
 maximum, the components and the roster of an assessment are fixed.
 */
module Gradebook {
  import opened Options
  import opened Text
  import opened Marks
  import opened Compilation

  type UserId = nat

  /** What the hash of a record's state covers. */
  datatype GradeState = GradeState(record: nat, rawScore: int, scores: Scores, remarks: string, version: nat)

  /** `bandOf` is the normalised score the bound school schema gives, when there is one. */
  datatype Config = Config(
    assessments: map<nat, Assessment>,
    stateHash: GradeState -> string,
    payloadHash: seq<Row> -> string,
    bandOf: (nat, int) -> Option<int>)

  datatype Batch = Batch(assessment: nat, teacher: UserId, key: string, payloadHash: string, recordCount: nat)

  datatype DraftStatus = Open | Closed

  /** One accepted save of a draft, kept for the statement of properties only. */
  datatype Save = Save(key: string, rows: seq<MarkRow>)

  datatype Draft = Draft(
    assessment: nat, teacher: UserId, key: string, payloadHash: string, version: nat,
    status: DraftStatus, rows: seq<MarkRow>, saves: seq<Save>)

  datatype CorrectionStatus =
    | DraftRequest | Requested | SubmittedRequest | UnderHodReview | Approved | ApprovedByHod | RejectedRequest
    | RejectedByHod | EscalationRequested | UnderAcademicHeadReview | ApprovedByAcademicHead
    | RejectedByAcademicHead | Applied | Cancelled | Expired

  datatype Correction = Correction(
    record: nat,
    requestedBy: UserId,
    oldStateHash: string,
    proposedRawScore: Option<int>,
    proposedScores: Scores,
    proposedRemarks: string,
    status: CorrectionStatus,
    reviewedBy: Option<UserId>,
    escalatedBy: Option<UserId>,
    appliedBy: Option<UserId>)

  datatype AuditAction = RequestedAction | ReviewedAction | EscalatedAction | AppliedAction

  datatype Field = ComponentScores | RawScore | Remarks

  datatype Audit = Audit(
    correction: nat, record: nat, actor: UserId, action: AuditAction,
    statusFrom: Option<CorrectionStatus>, statusTo: CorrectionStatus,
    before: string, after: string, changed: seq<Field>)

  /** `seen` is the length of the record table when the run was compiled. */
  datatype Run = Run(assessment: nat, status: Status, compiled: Compiled, seen: nat)

  /** `originals` keeps each record as it was submitted; no command reads it. */
  datatype Book = Book(
    batches: seq<Batch>,
    drafts: seq<Draft>,
    records: seq<Record>,
    originals: seq<Record>,
    corrections: seq<Correction>,
    audits: seq<Audit>,
    runs: seq<Run>)

  const EMPTY := Book([], [], [], [], [], [], [])

  datatype Outcome = Accepted | Replayed(id: nat) | Refused

  datatype Reply = Reply(book: Book, outcome: Outcome)

  datatype Command =
    | SaveDraft(teacher: UserId, assessment: nat, rows: seq<Row>, draftVersion: Option<int>, key: string)
    | Submit(teacher: UserId, assessment: nat, rows: seq<Row>, key: string, confirmed: bool)
    | Request(actor: UserId, record: nat, reason: string, rawScore: Option<int>, scores: Scores, remarks: string)
    | HodReview(actor: UserId, correction: nat, approve: bool)
    | Escalate(actor: UserId, correction: nat, reason: string)
    | HeadReview(actor: UserId, correction: nat, approve: bool)
    | Apply(actor: UserId, correction: nat)
    | CompileRun(assessment: nat)

  // ---- Queries ----

  /** The draft that stores the key. */
  function DraftByKey(drafts: seq<Draft>, key: string): Option<nat> {
    if drafts == [] then None
    else if DraftByKey(drafts[..|drafts| - 1], key).Some? then DraftByKey(drafts[..|drafts| - 1], key)
    else if drafts[|drafts| - 1].key == key then Some(|drafts| - 1)
    else None
  }

  predicate IsOpenFor(d: Draft, assessment: nat, teacher: UserId) {
    d.assessment == assessment && d.teacher == teacher && d.status == Open
  }

  function OpenDraft(drafts: seq<Draft>, assessment: nat, teacher: UserId): Option<nat> {
    if drafts == [] then None
    else if OpenDraft(drafts[..|drafts| - 1], assessment, teacher).Some?
    then OpenDraft(drafts[..|drafts| - 1], assessment, teacher)
    else if IsOpenFor(drafts[|drafts| - 1], assessment, teacher) then Some(|drafts| - 1)
    else None
  }

  function BatchByKey(batches: seq<Batch>, key: string): Option<nat> {
    if batches == [] then None
    else if BatchByKey(batches[..|batches| - 1], key).Some? then BatchByKey(batches[..|batches| - 1], key)
    else if batches[|batches| - 1].key == key then Some(|batches| - 1)
    else None
  }

  lemma {:induction false} DraftByKeyFinds(drafts: seq<Draft>, key: string)
    ensures match DraftByKey(drafts, key)
            case Some(i) => i < |drafts| && drafts[i].key == key
            case None => forall i :: 0 <= i < |drafts| ==> drafts[i].key != key
  {
    if drafts != [] {
      DraftByKeyFinds(drafts[..|drafts| - 1], key);
    }
  }

  lemma {:induction false} OpenDraftFinds(drafts: seq<Draft>, assessment: nat, teacher: UserId)
    ensures match OpenDraft(drafts, assessment, teacher)
            case Some(i) => i < |drafts| && IsOpenFor(drafts[i], assessment, teacher)
            case None => forall i :: 0 <= i < |drafts| ==> !IsOpenFor(drafts[i], assessment, teacher)
  {
    if drafts != [] {
      OpenDraftFinds(drafts[..|drafts| - 1], assessment, teacher);
    }
  }

  lemma {:induction false} BatchByKeyFinds(batches: seq<Batch>, key: string)
    ensures match BatchByKey(batches, key)
            case Some(i) => i < |batches| && batches[i].key == key
            case None => forall i :: 0 <= i < |batches| ==> batches[i].key != key
  {
    if batches != [] {
      BatchByKeyFinds(batches[..|batches| - 1], key);
    }
  }

  /** The submitted records of an assessment. */
  function RecordsOf(records: seq<Record>, assessment: nat): seq<Record> {
    if records == [] then []
    else RecordsOf(records[..|records| - 1], assessment)
         + (if records[|records| - 1].assessment == assessment then [records[|records| - 1]] else [])
  }

  // ---- Drafts and submission ----

  /** Same key, same context, same payload: the earlier answer stands. */
  predicate SamePayload(storedHash: string, hash: string) {
    storedHash == "" || storedHash == hash
  }

  ghost function DoSaveDraft(cfg: Config, book: Book, c: Command): Reply
    requires c.SaveDraft?
  {
    var key := Strip(c.key);
    if key == "" || c.assessment !in cfg.assessments then Reply(book, Refused)
    else
      var a, hash := cfg.assessments[c.assessment], cfg.payloadHash(c.rows);
      DraftByKeyFinds(book.drafts, key);
      OpenDraftFinds(book.drafts, c.assessment, c.teacher);
      match DraftByKey(book.drafts, key)
      case Some(i) =>
        var d := book.drafts[i];
        if d.assessment != c.assessment || d.teacher != c.teacher || !SamePayload(d.payloadHash, hash)
        then Reply(book, Refused) else Reply(book, Replayed(i))
      case None =>
        var open := OpenDraft(book.drafts, c.assessment, c.teacher);
        if c.draftVersion.Some? && open.Some? && c.draftVersion.value != book.drafts[open.value].version
        then Reply(book, Refused)
        else
          match ValidateRows(c.rows, a.roster, a.maxScore, a.components, false)
          case Rejected(_) => Reply(book, Refused)
          case Ok(marks) =>
            match open
            case None =>
              var d := Draft(c.assessment, c.teacher, key, hash, 1, Open, marks, [Save(key, marks)]);
              Reply(book.(drafts := book.drafts + [d]), Accepted)
            case Some(i) =>
              var d := book.drafts[i];
              var d' := d.(version := d.version + 1, key := key, payloadHash := hash, rows := marks,
                           saves := d.saves + [Save(key, marks)]);
              Reply(book.(drafts := book.drafts[i := d']), Accepted)
  }

  function NewRecords(marks: seq<MarkRow>, assessment: nat, batch: nat): seq<Record>
    requires forall i :: 0 <= i < |marks| ==> marks[i].rawScore.Some?
  {
    seq(|marks|, i requires 0 <= i < |marks| =>
      Record(assessment, batch, marks[i].studentId, marks[i].rawScore.value, None,
             marks[i].scores, marks[i].remarks, 1))
  }

  function CloseDrafts(drafts: seq<Draft>, assessment: nat, teacher: UserId): seq<Draft> {
    seq(|drafts|, i requires 0 <= i < |drafts| =>
      if IsOpenFor(drafts[i], assessment, teacher) then drafts[i].(status := Closed) else drafts[i])
  }

  /** The database constraints on the new records: a score each, one record per assessment and learner. */
  predicate Insertable(records: seq<Record>, marks: seq<MarkRow>, assessment: nat) {
    forall i :: 0 <= i < |marks| ==>
      && marks[i].rawScore.Some?
      && forall r :: 0 <= r < |records| ==>
           !(records[r].assessment == assessment && records[r].student == marks[i].studentId)
  }

  predicate HasBatch(batches: seq<Batch>, assessment: nat, teacher: UserId) {
    exists i :: 0 <= i < |batches| && batches[i].assessment == assessment && batches[i].teacher == teacher
  }

  function WithBatch(book: Book, batch: Batch, marks: seq<MarkRow>): Book
    requires forall i :: 0 <= i < |marks| ==> marks[i].rawScore.Some?
  {
    var rows := NewRecords(marks, batch.assessment, |book.batches|);
    book.(batches := book.batches + [batch],
          records := book.records + rows,
          originals := book.originals + rows,
          drafts := CloseDrafts(book.drafts, batch.assessment, batch.teacher))
  }

  ghost function DoSubmit(cfg: Config, book: Book, c: Command): Reply
    requires c.Submit?
  {
    var key := Strip(c.key);
    if key == "" || c.assessment !in cfg.assessments then Reply(book, Refused)
    else
      var a, hash := cfg.assessments[c.assessment], cfg.payloadHash(c.rows);
      BatchByKeyFinds(book.batches, key);
      match BatchByKey(book.batches, key)
      case Some(i) =>
        var b := book.batches[i];
        if b.assessment != c.assessment || b.teacher != c.teacher || !SamePayload(b.payloadHash, hash)
        then Reply(book, Refused) else Reply(book, Replayed(i))
      case None =>
        if HasBatch(book.batches, c.assessment, c.teacher) || !c.confirmed then Reply(book, Refused)
        else
          match ValidateRows(c.rows, a.roster, a.maxScore, a.components, true)
          case Rejected(_) => Reply(book, Refused)
          case Ok(marks) =>
            if !Insertable(book.records, marks, c.assessment) then Reply(book, Refused)
            else Reply(WithBatch(book, Batch(c.assessment, c.teacher, key, hash, |marks|), marks), Accepted)
  }

  // ---- Corrections ----

  function Transitions(s: CorrectionStatus): set<CorrectionStatus> {
    match s
    case DraftRequest => {SubmittedRequest, Cancelled}
    case Requested => {UnderHodReview, ApprovedByHod, RejectedByHod}
    case SubmittedRequest => {UnderHodReview, Cancelled}
    case UnderHodReview => {ApprovedByHod, RejectedByHod, EscalationRequested}
    case Approved => {Applied}
    case ApprovedByHod => {Applied}
    case EscalationRequested => {UnderAcademicHeadReview, ApprovedByAcademicHead, RejectedByAcademicHead}
    case UnderAcademicHeadReview => {ApprovedByAcademicHead, RejectedByAcademicHead}
    case ApprovedByAcademicHead => {Applied}
    case _ => {}
  }

  predicate CanTransition(current: CorrectionStatus, target: CorrectionStatus) {
    target in Transitions(current)
  }

  /** Escalation consults its own list of statuses. */
  predicate CanEscalate(s: CorrectionStatus, reason: string) {
    (s == Requested || s == SubmittedRequest || s == UnderHodReview) && Strip(reason) != ""
  }

  predicate IsApprovedUnapplied(s: CorrectionStatus) {
    s == Approved || s == ApprovedByHod || s == ApprovedByAcademicHead
  }

  predicate IsBlocking(s: CorrectionStatus) {
    s in {Requested, SubmittedRequest, UnderHodReview, Approved, ApprovedByHod, EscalationRequested,
          UnderAcademicHeadReview, ApprovedByAcademicHead}
  }

  predicate IsTerminal(s: CorrectionStatus) {
    s in {RejectedRequest, RejectedByHod, RejectedByAcademicHead, Applied, Cancelled, Expired}
  }

  function StateHash(cfg: Config, id: nat, r: Record): string {
    cfg.stateHash(GradeState(id, r.rawScore, r.scores, r.remarks, r.version))
  }

  function DoRequest(cfg: Config, book: Book, c: Command): Reply
    requires c.Request?
  {
    if c.record >= |book.records| then Reply(book, Refused)
    else
      var r := book.records[c.record];
      if r.assessment !in cfg.assessments || Strip(c.reason) == ""
         || (c.rawScore.Some? && CheckBounds(c.rawScore.value, cfg.assessments[r.assessment].maxScore).Some?)
      then Reply(book, Refused)
      else
        var hash := StateHash(cfg, c.record, r);
        var q := Correction(c.record, c.actor, hash, c.rawScore, c.scores, c.remarks, UnderHodReview, None, None, None);
        var audit := Audit(|book.corrections|, c.record, c.actor, RequestedAction, None, UnderHodReview, hash, "", []);
        Reply(book.(corrections := book.corrections + [q], audits := book.audits + [audit]), Accepted)
  }

  /** Give correction `id` a new value and write the audit record of the change. */
  function Moved(book: Book, id: nat, q: Correction, actor: UserId, action: AuditAction): Book
    requires id < |book.corrections|
  {
    var audit := Audit(id, q.record, actor, action, Some(book.corrections[id].status), q.status, "", "", []);
    book.(corrections := book.corrections[id := q], audits := book.audits + [audit])
  }

  function DoReview(book: Book, actor: UserId, id: nat, target: CorrectionStatus): Reply {
    if id >= |book.corrections| then Reply(book, Refused)
    else
      var q := book.corrections[id];
      if q.requestedBy == actor || !CanTransition(q.status, target) then Reply(book, Refused)
      else Reply(Moved(book, id, q.(status := target, reviewedBy := Some(actor)), actor, ReviewedAction), Accepted)
  }

  function DoEscalate(book: Book, c: Command): Reply
    requires c.Escalate?
  {
    if c.correction >= |book.corrections| then Reply(book, Refused)
    else
      var q := book.corrections[c.correction];
      if !CanEscalate(q.status, c.reason) then Reply(book, Refused)
      else
        var q' := q.(status := EscalationRequested, escalatedBy := Some(c.actor));
        Reply(Moved(book, c.correction, q', c.actor, EscalatedAction), Accepted)
  }

  /** The fields a proposal changes, in the order of their names. */
  function ChangedFields(r: Record, q: Correction): seq<Field> {
    (if q.proposedScores != map[] && r.scores != q.proposedScores then [ComponentScores] else [])
    + (if q.proposedRawScore.Some? && r.rawScore != q.proposedRawScore.value then [RawScore] else [])
    + (if q.proposedRemarks != "" && r.remarks != q.proposedRemarks then [Remarks] else [])
  }

  /** The record with the proposal written over it. */
  function Corrected(cfg: Config, r: Record, q: Correction): Record {
    var rawScore := if q.proposedRawScore.Some? then q.proposedRawScore.value else r.rawScore;
    var band := cfg.bandOf(r.assessment, rawScore);
    r.(rawScore := rawScore,
       scores := if q.proposedScores != map[] then q.proposedScores else r.scores,
       remarks := if q.proposedRemarks != "" then q.proposedRemarks else r.remarks,
       version := r.version + 1,
       normalized := if band.Some? then band else r.normalized)
  }

  /** The field has different values in the two records. */
  predicate Differs(before: Record, after: Record, f: Field) {
    match f
    case ComponentScores => before.scores != after.scores
    case RawScore => before.rawScore != after.rawScore
    case Remarks => before.remarks != after.remarks
  }

  /** Fields compare as their names do. */
  function FieldRank(f: Field): nat {
    match f
    case ComponentScores => 0
    case RawScore => 1
    case Remarks => 2
  }

  /**
   The list holds exactly the fields that the proposal, written over the record, gives
   another value, sorted by name and each once.  So it is empty, and the application
   refused, exactly when the application would leave all three as they are.
   */
  lemma ChangedFieldsAreTheDifference(cfg: Config, r: Record, q: Correction)
    ensures forall f: Field :: f in ChangedFields(r, q) <==> Differs(r, Corrected(cfg, r, q), f)
    ensures forall i, j :: 0 <= i < j < |ChangedFields(r, q)| ==>
              FieldRank(ChangedFields(r, q)[i]) < FieldRank(ChangedFields(r, q)[j])
    ensures ChangedFields(r, q) == [] <==>
            Corrected(cfg, r, q) == r.(version := r.version + 1, normalized := Corrected(cfg, r, q).normalized)
  {
    var r' := Corrected(cfg, r, q);
    var scores := if Differs(r, r', ComponentScores) then [ComponentScores] else [];
    var score := if Differs(r, r', RawScore) then [RawScore] else [];
    var remarks := if Differs(r, r', Remarks) then [Remarks] else [];
    assert ChangedFields(r, q) == scores + score + remarks;
  }

  function StaleRuns(runs: seq<Run>, assessment: nat): seq<Run> {
    seq(|runs|, i requires 0 <= i < |runs| =>
      if runs[i].assessment == assessment then runs[i].(status := Stale) else runs[i])
  }

  /** A saved record must be within bounds and belong to an enrolled learner. */
  predicate Savable(cfg: Config, r: Record) {
    && r.assessment in cfg.assessments
    && CheckBounds(r.rawScore, cfg.assessments[r.assessment].maxScore) == None
    && r.student in cfg.assessments[r.assessment].roster
  }

  function DoApply(cfg: Config, book: Book, c: Command): Reply
    requires c.Apply?
  {
    if c.correction >= |book.corrections| then Reply(book, Refused)
    else
      var q := book.corrections[c.correction];
      if !IsApprovedUnapplied(q.status) || q.requestedBy == c.actor || q.record >= |book.records|
      then Reply(book, Refused)
      else
        var r := book.records[q.record];
        var r' := Corrected(cfg, r, q);
        if ChangedFields(r, q) == [] || !Savable(cfg, r') then Reply(book, Refused)
        else
          var audit := Audit(c.correction, q.record, c.actor, AppliedAction, Some(q.status), Applied,
                             StateHash(cfg, q.record, r), StateHash(cfg, q.record, r'), ChangedFields(r, q));
          Reply(book.(records := book.records[q.record := r'],
                      runs := StaleRuns(book.runs, r.assessment),
                      corrections := book.corrections[c.correction :=
                        q.(status := Applied, appliedBy := Some(c.actor))],
                      audits := book.audits + [audit]),
                Accepted)
  }

  // ---- Compilation ----

  ghost function DoCompile(cfg: Config, book: Book, c: Command): Reply
    requires c.CompileRun?
  {
    if c.assessment !in cfg.assessments then Reply(book, Refused)
    else
      match Compile(RecordsOf(book.records, c.assessment), cfg.assessments[c.assessment])
      case None => Reply(book, Refused)
      case Some(compiled) =>
        var run := Run(c.assessment, compiled.status, compiled, |book.records|);
        Reply(book.(runs := StaleRuns(book.runs, c.assessment) + [run]), Accepted)
  }

  ghost function Do(cfg: Config, book: Book, authorized: bool, c: Command): Reply {
    if !authorized then Reply(book, Refused)
    else
      match c
      case SaveDraft(_, _, _, _, _) => DoSaveDraft(cfg, book, c)
      case Submit(_, _, _, _, _) => DoSubmit(cfg, book, c)
      case Request(_, _, _, _, _, _) => DoRequest(cfg, book, c)
      case HodReview(actor, id, approve) => DoReview(book, actor, id, if approve then ApprovedByHod else RejectedByHod)
      case Escalate(_, _, _) => DoEscalate(book, c)
      case HeadReview(actor, id, approve) =>
        DoReview(book, actor, id, if approve then ApprovedByAcademicHead else RejectedByAcademicHead)
      case Apply(_, _) => DoApply(cfg, book, c)
      case CompileRun(_) => DoCompile(cfg, book, c)
  }

  /** A compilation that does not abort is recorded, and it makes every earlier run stale. */
  lemma AcceptedCompilation(cfg: Config, book: Book, assessment: nat, compiled: Compiled)
    requires assessment in cfg.assessments
    requires Compile(RecordsOf(book.records, assessment), cfg.assessments[assessment]) == Some(compiled)
    ensures var run := Run(assessment, compiled.status, compiled, |book.records|);
            Do(cfg, book, true, CompileRun(assessment))
            == Reply(book.(runs := StaleRuns(book.runs, assessment) + [run]), Accepted)
  {
    hide Compile;
  }

  // ---- Runs ----

  datatype Entry = Entry(authorized: bool, command: Command)

  datatype Story = Story(cfg: Config, books: seq<Book>, entries: seq<Entry>)

  ghost predicate IsStory(s: Story) {
    && |s.books| == |s.entries| + 1 && s.books[0] == EMPTY
    && forall k :: 0 <= k < |s.entries| ==> IsNext(s, k)
  }

  ghost predicate IsNext(s: Story, k: nat)
    requires k < |s.entries| < |s.books|
  {
    s.books[k + 1] == Do(s.cfg, s.books[k], s.entries[k].authorized, s.entries[k].command).book
  }

  /** The story continued by one authorised command. */
  ghost function Continued(s: Story, c: Command): Story
    requires s.books != []
  {
    Story(s.cfg, s.books + [Do(s.cfg, s.books[|s.books| - 1], true, c).book], s.entries + [Entry(true, c)])
  }

  lemma ContinuedIsStory(s: Story, c: Command)
    requires IsStory(s)
    ensures IsStory(Continued(s, c))
  {
    var t := Continued(s, c);
    forall k | 0 <= k < |t.entries|
      ensures IsNext(t, k)
    {
      if k < |s.entries| {
        assert IsNext(s, k);
      }
    }
  }

  /** Only an accepted command changes anything. */
  lemma OnlyAcceptedChanges(cfg: Config, book: Book, authorized: bool, c: Command)
    ensures Do(cfg, book, authorized, c).outcome == Accepted || Do(cfg, book, authorized, c).book == book
  {
  }
}
