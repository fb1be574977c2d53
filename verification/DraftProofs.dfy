/** Drafts: one open draft per teacher and assessment, and optimistic saves that lose nothing. */
module DraftProofs {
  import opened Options
  import opened Text
  import opened Marks
  import opened Compilation
  import opened Gradebook

  /** A draft is what its last accepted save made it. */
  ghost predicate IsLastSave(d: Draft) {
    && (forall i :: 0 <= i < |d.saves| ==> d.saves[i].key != "")
    && d.version == |d.saves| >= 1
    && d.rows == d.saves[|d.saves| - 1].rows
    && d.key == d.saves[|d.saves| - 1].key
  }

  ghost predicate KeysDiffer(drafts: seq<Draft>) {
    forall i, j :: 0 <= i < j < |drafts| ==> drafts[i].key != drafts[j].key
  }

  ghost predicate OneOpenEach(drafts: seq<Draft>) {
    forall i, j :: 0 <= i < j < |drafts| && drafts[j].status == Open ==>
      !IsOpenFor(drafts[i], drafts[j].assessment, drafts[j].teacher)
  }

  ghost predicate DraftInv(drafts: seq<Draft>) {
    && (forall i :: 0 <= i < |drafts| ==> IsLastSave(drafts[i]))
    && KeysDiffer(drafts)
    && OneOpenEach(drafts)
  }

  /** What any command may do to the drafts: add some, append saves, close some; without a new save the rest stays. */
  ghost predicate DraftsEvolve(before: seq<Draft>, after: seq<Draft>) {
    && |before| <= |after|
    && forall i :: 0 <= i < |before| ==>
         && after[i].assessment == before[i].assessment && after[i].teacher == before[i].teacher
         && before[i].saves <= after[i].saves
         && (after[i].saves == before[i].saves ==> after[i] == before[i].(status := after[i].status))
         && (before[i].status == Closed ==> after[i] == before[i])
  }

  lemma NewDraftIsTheOnlyOpenOne(drafts: seq<Draft>, d: Draft)
    requires OneOpenEach(drafts) && OpenDraft(drafts, d.assessment, d.teacher) == None
    ensures OneOpenEach(drafts + [d])
  {
    OpenDraftFinds(drafts, d.assessment, d.teacher);
  }

  lemma NewKeyDiffers(drafts: seq<Draft>, d: Draft)
    requires KeysDiffer(drafts) && forall i :: 0 <= i < |drafts| ==> drafts[i].key != d.key
    ensures KeysDiffer(drafts + [d])
  {
  }

  lemma NewDraftKeepsInv(drafts: seq<Draft>, d: Draft)
    requires DraftInv(drafts) && IsLastSave(d) && OpenDraft(drafts, d.assessment, d.teacher) == None
    requires forall i :: 0 <= i < |drafts| ==> drafts[i].key != d.key
    ensures DraftInv(drafts + [d]) && DraftsEvolve(drafts, drafts + [d])
  {
    NewKeyDiffers(drafts, d);
    NewDraftIsTheOnlyOpenOne(drafts, d);
    AddingEvolves(drafts, d);
    hide IsLastSave, KeysDiffer, OneOpenEach, DraftsEvolve;
  }

  lemma AddingEvolves(drafts: seq<Draft>, d: Draft)
    ensures DraftsEvolve(drafts, drafts + [d])
  {
    var after := drafts + [d];
    assert forall i :: 0 <= i < |drafts| ==> after[i] == drafts[i];
  }

  lemma AnotherSaveKeepsInv(drafts: seq<Draft>, i: nat, d: Draft)
    requires DraftInv(drafts) && i < |drafts| && IsLastSave(d)
    requires d.assessment == drafts[i].assessment && d.teacher == drafts[i].teacher
    requires d.status == drafts[i].status == Open && drafts[i].saves < d.saves
    requires forall k :: 0 <= k < |drafts| ==> drafts[k].key != d.key
    ensures DraftInv(drafts[i := d]) && DraftsEvolve(drafts, drafts[i := d])
  {
  }

  lemma ClosingKeepsInv(drafts: seq<Draft>, assessment: nat, teacher: UserId)
    requires DraftInv(drafts)
    ensures DraftInv(CloseDrafts(drafts, assessment, teacher))
    ensures DraftsEvolve(drafts, CloseDrafts(drafts, assessment, teacher))
  {
  }

  lemma SaveKeepsDrafts(cfg: Config, book: Book, c: Command)
    requires DraftInv(book.drafts) && c.SaveDraft? && DoSaveDraft(cfg, book, c).outcome == Accepted
    ensures var drafts := DoSaveDraft(cfg, book, c).book.drafts;
            DraftInv(drafts) && DraftsEvolve(book.drafts, drafts)
  {
    var drafts := DoSaveDraft(cfg, book, c).book.drafts;
    DraftByKeyFinds(book.drafts, Strip(c.key));
    OpenDraftFinds(book.drafts, c.assessment, c.teacher);
    match OpenDraft(book.drafts, c.assessment, c.teacher)
    case None => NewDraftKeepsInv(book.drafts, drafts[|book.drafts|]);
    case Some(i) => AnotherSaveKeepsInv(book.drafts, i, drafts[i]);
  }

  lemma DoKeepsDrafts(cfg: Config, book: Book, authorized: bool, c: Command)
    requires DraftInv(book.drafts)
    ensures var drafts := Do(cfg, book, authorized, c).book.drafts;
            DraftInv(drafts) && DraftsEvolve(book.drafts, drafts)
  {
    OnlyAcceptedChanges(cfg, book, authorized, c);
    if Do(cfg, book, authorized, c).outcome == Accepted {
      match c
      case SaveDraft(_, _, _, _, _) => SaveKeepsDrafts(cfg, book, c);
      case Submit(_, _, _, _, _) => ClosingKeepsInv(book.drafts, c.assessment, c.teacher);
      case _ =>
    }
  }

  lemma {:induction false} StoryDrafts(s: Story, k: nat)
    requires IsStory(s) && k < |s.books|
    ensures DraftInv(s.books[k].drafts)
  {
    if 0 < k {
      StoryDrafts(s, k - 1);
      assert IsNext(s, k - 1);
      DoKeepsDrafts(s.cfg, s.books[k - 1], s.entries[k - 1].authorized, s.entries[k - 1].command);
    }
  }

  lemma DraftsEvolveTransitive(a: seq<Draft>, b: seq<Draft>, c: seq<Draft>)
    requires DraftsEvolve(a, b) && DraftsEvolve(b, c)
    ensures DraftsEvolve(a, c)
  {
    forall i | 0 <= i < |a|
      ensures a[i].saves <= c[i].saves
      ensures c[i].saves == a[i].saves ==> c[i] == a[i].(status := c[i].status)
    {
      assert a[i].saves <= b[i].saves <= c[i].saves;
      assert c[i].saves == a[i].saves ==> b[i].saves == a[i].saves;
    }
  }

  lemma {:induction false} StoryDraftsEvolve(s: Story, i: nat, j: nat)
    requires IsStory(s) && i <= j < |s.books|
    ensures DraftsEvolve(s.books[i].drafts, s.books[j].drafts)
    decreases j
  {
    if i < j {
      StoryDraftsEvolve(s, i, j - 1);
      StoryDrafts(s, j - 1);
      assert IsNext(s, j - 1);
      hide DraftsEvolve, DraftInv, Do;
      DoKeepsDrafts(s.cfg, s.books[j - 1], s.entries[j - 1].authorized, s.entries[j - 1].command);
      DraftsEvolveTransitive(s.books[i].drafts, s.books[j - 1].drafts, s.books[j].drafts);
    }
  }

  /**
   In every state a teacher has at most one open draft per assessment, and every draft
   holds exactly the rows of its last accepted save, numbered by the saves so far.
   */
  lemma DraftsAreLastSaves(s: Story, k: nat)
    requires IsStory(s) && k < |s.books|
    ensures var drafts := s.books[k].drafts;
            && (forall i, j :: 0 <= i < j < |drafts| && drafts[j].status == Open ==>
                  !IsOpenFor(drafts[i], drafts[j].assessment, drafts[j].teacher))
            && (forall i :: 0 <= i < |drafts| ==>
                  && drafts[i].version == |drafts[i].saves| >= 1
                  && Save(drafts[i].key, drafts[i].rows) == drafts[i].saves[|drafts[i].saves| - 1])
  {
    StoryDrafts(s, k);
  }

  /** An open draft is the one a save by its teacher finds. */
  lemma OpenDraftIs(drafts: seq<Draft>, i: nat)
    requires DraftInv(drafts) && i < |drafts| && drafts[i].status == Open
    ensures OpenDraft(drafts, drafts[i].assessment, drafts[i].teacher) == Some(i)
  {
    OpenDraftFinds(drafts, drafts[i].assessment, drafts[i].teacher);
  }

  lemma DraftByKeyIs(drafts: seq<Draft>, i: nat)
    requires DraftInv(drafts) && i < |drafts|
    ensures DraftByKey(drafts, drafts[i].key) == Some(i)
  {
    DraftByKeyFinds(drafts, drafts[i].key);
    assert KeysDiffer(drafts);
    assert forall k :: 0 <= k < |drafts| && drafts[k].key == drafts[i].key ==> k == i;
  }

  lemma {:induction false} StoryDraftContexts(s: Story, k: nat)
    requires IsStory(s) && k < |s.books|
    ensures forall i :: 0 <= i < |s.books[k].drafts| ==> s.books[k].drafts[i].assessment in s.cfg.assessments
  {
    if 0 < k {
      StoryDraftContexts(s, k - 1);
      assert IsNext(s, k - 1);
      var book, e := s.books[k - 1], s.entries[k - 1];
      OnlyAcceptedChanges(s.cfg, book, e.authorized, e.command);
      if e.command.SaveDraft? {
        DraftByKeyFinds(book.drafts, Strip(e.command.key));
        OpenDraftFinds(book.drafts, e.command.assessment, e.command.teacher);
      }
    }
  }

  /** The draft as this save leaves it, with the saves before. */
  ghost predicate IsSavedAs(cfg: Config, d: Draft, c: Command, before: seq<Save>)
    requires c.SaveDraft?
  {
    && d.assessment == c.assessment && d.teacher == c.teacher && d.status == Open
    && d.key == Strip(c.key) && d.payloadHash == cfg.payloadHash(c.rows) && d.version == |before| + 1
    && d.saves == before + [Save(Strip(c.key), d.rows)]
    && c.assessment in cfg.assessments
    && var a := cfg.assessments[c.assessment];
       ValidateRows(c.rows, a.roster, a.maxScore, a.components, false) == Ok(d.rows)
  }

  /** What an accepted save does: it extends the open draft, on its version, or begins a new one. */
  lemma AcceptedSave(cfg: Config, book: Book, c: Command)
    requires DraftInv(book.drafts) && c.SaveDraft? && DoSaveDraft(cfg, book, c).outcome == Accepted
    ensures var drafts, after := book.drafts, DoSaveDraft(cfg, book, c).book.drafts;
            && (forall x :: 0 <= x < |drafts| ==> drafts[x].key != Strip(c.key))
            && match OpenDraft(drafts, c.assessment, c.teacher)
               case None =>
                 && |after| == |drafts| + 1 && after[..|drafts|] == drafts
                 && IsSavedAs(cfg, after[|drafts|], c, [])
               case Some(o) =>
                 && o < |drafts| == |after| && after == drafts[o := after[o]]
                 && (c.draftVersion == None || c.draftVersion == Some(|drafts[o].saves|))
                 && IsSavedAs(cfg, after[o], c, drafts[o].saves)
  {
    DraftByKeyFinds(book.drafts, Strip(c.key));
    OpenDraftFinds(book.drafts, c.assessment, c.teacher);
  }

  /** A save replaced rows of some draft that a client who had read `read` of draft `d` did not know. */
  ghost predicate ReplacesUnseen(before: seq<Draft>, after: seq<Draft>, d: nat, read: seq<Save>) {
    exists x :: 0 <= x < |before| && x < |after|
      && after[x].saves != before[x].saves && !(x == d && before[x].saves == read)
  }

  /** Client and save: draft `d` was read after `i` commands, command `j` is accepted on the version that was read. */
  ghost predicate SavesOnRead(s: Story, i: nat, j: nat, d: nat) {
    && i <= j < |s.entries| && |s.books| == |s.entries| + 1 && d < |s.books[i].drafts|
    && var read, e := s.books[i].drafts[d], s.entries[j];
    && e.command.SaveDraft?
    && e.command.teacher == read.teacher && e.command.assessment == read.assessment
    && e.command.draftVersion == Some(read.version)
    && Do(s.cfg, s.books[j], e.authorized, e.command).outcome == Accepted
  }

  /**
   No lost update, and exactly when.  A save accepted on the version that its client
   read extends precisely the history the client saw if and only if the draft is still
   open; and it replaces something the client did not see if and only if the draft has
   been closed and another one is open in its place.
   */
  lemma NoLostUpdate(s: Story, i: nat, j: nat, d: nat)
    requires IsStory(s) && SavesOnRead(s, i, j, d)
    ensures d < |s.books[j].drafts| && d < |s.books[j + 1].drafts|
    ensures var read, before, after := s.books[i].drafts[d], s.books[j].drafts, s.books[j + 1].drafts;
            && (before[d].status == Open <==>
                  after[d].saves == read.saves + [Save(Strip(s.entries[j].command.key), after[d].rows)])
            && (before[d].status == Open ==> before[d].saves == read.saves && before[d].rows == read.rows)
            && (ReplacesUnseen(before, after, d, read.saves) <==>
                  before[d].status == Closed
                  && exists x :: 0 <= x < |before| && IsOpenFor(before[x], read.assessment, read.teacher))
  {
    hide DoSaveDraft;
    StoryDrafts(s, i);
    StoryDrafts(s, j);
    StoryDraftsEvolve(s, i, j);
    assert IsNext(s, j);
    var read, c := s.books[i].drafts[d], s.entries[j].command;
    var before, after := s.books[j].drafts, s.books[j + 1].drafts;
    AcceptedSave(s.cfg, s.books[j], c);
    OpenDraftFinds(before, c.assessment, c.teacher);
    assert IsLastSave(before[d]) && before[d].key != Strip(c.key);
    match OpenDraft(before, c.assessment, c.teacher)
    case None =>
      assert after[..|before|] == before;
      assert forall x :: 0 <= x < |before| ==> after[x] == before[x];
    case Some(o) =>
      assert IsLastSave(before[o]);
      if before[d].status == Open {
        OpenDraftIs(before, d);
      } else {
        assert o != d && after[o].saves != before[o].saves;
      }
  }

  /** When a fresh save with acceptable rows is accepted: its version must fit any open draft. */
  lemma FreshSaveOutcome(s: Story, k: nat, c: Command)
    requires IsStory(s) && k < |s.books| && c.SaveDraft?
    requires Strip(c.key) != "" && c.assessment in s.cfg.assessments
    requires forall d :: d in s.books[k].drafts ==> d.key != Strip(c.key)
    requires var a := s.cfg.assessments[c.assessment];
             ValidateRows(c.rows, a.roster, a.maxScore, a.components, false).Ok?
    ensures Do(s.cfg, s.books[k], true, c).outcome == Accepted <==>
            c.draftVersion == None
            || forall d :: d in s.books[k].drafts && IsOpenFor(d, c.assessment, c.teacher) ==>
                 c.draftVersion == Some(|d.saves|)
    ensures Do(s.cfg, s.books[k], true, c).outcome != Accepted ==> Do(s.cfg, s.books[k], true, c).outcome == Refused
  {
    StoryDrafts(s, k);
    var drafts := s.books[k].drafts;
    DraftByKeyFinds(drafts, Strip(c.key));
    OpenDraftFinds(drafts, c.assessment, c.teacher);
    match OpenDraft(drafts, c.assessment, c.teacher)
    case None =>
      assert forall d :: d in drafts ==> !IsOpenFor(d, c.assessment, c.teacher);
    case Some(i) =>
      assert drafts[i] in drafts;
      assert forall d :: d in drafts && IsOpenFor(d, c.assessment, c.teacher) ==> d == drafts[i];
  }

  /** The `n`th save of draft `d`, sent again: same key and context, with whatever rows and version. */
  ghost predicate Repeats(s: Story, j: nat, d: nat, n: nat, again: Command) {
    && j < |s.books| && d < |s.books[j].drafts| && n < |s.books[j].drafts[d].saves|
    && var draft := s.books[j].drafts[d];
    && again.SaveDraft? && Strip(again.key) == draft.saves[n].key
    && again.assessment == draft.assessment && again.teacher == draft.teacher
  }

  /**
   A repeated save is recognised exactly when no save under another key has reached the
   draft since, and the rows are those of that last save: the draft stores one key and
   one payload only.
   */
  lemma RepeatedSave(s: Story, j: nat, d: nat, n: nat, again: Command)
    requires IsStory(s) && Repeats(s, j, d, n, again)
    ensures var draft, reply := s.books[j].drafts[d], Do(s.cfg, s.books[j], true, again);
            && (reply.outcome == Replayed(d) <==>
                  draft.saves[|draft.saves| - 1].key == draft.saves[n].key
                  && SamePayload(draft.payloadHash, s.cfg.payloadHash(again.rows)))
            && (reply.outcome == Replayed(d) ==> reply.book == s.books[j])
  {
    StoryDrafts(s, j);
    StoryDraftContexts(s, j);
    var drafts := s.books[j].drafts;
    assert IsLastSave(drafts[d]);
    DraftByKeyFinds(drafts, Strip(again.key));
    if Strip(again.key) == drafts[d].key {
      DraftByKeyIs(drafts, d);
    }
  }

  /** The command is an accepted save, and draft `d` is the one that took it. */
  ghost predicate SavesTo(s: Story, i: nat, d: nat) {
    && i < |s.entries| && |s.books| == |s.entries| + 1
    && s.entries[i].command.SaveDraft?
    && Do(s.cfg, s.books[i], s.entries[i].authorized, s.entries[i].command).outcome == Accepted
    && d < |s.books[i + 1].drafts| && s.books[i + 1].drafts[d].key == Strip(s.entries[i].command.key)
  }

  lemma SavedDraft(s: Story, i: nat, d: nat)
    requires IsStory(s) && SavesTo(s, i, d)
    ensures var c, draft := s.entries[i].command, s.books[i + 1].drafts[d];
            && draft.payloadHash == s.cfg.payloadHash(c.rows)
            && draft.assessment == c.assessment && draft.teacher == c.teacher
  {
    StoryDrafts(s, i);
    assert IsNext(s, i);
    AcceptedSave(s.cfg, s.books[i], s.entries[i].command);
  }

  /**
   As long as its draft has not been saved again, a save is recognised when it is repeated
   under its key for its context, exactly if the hash of its rows is the same (or was empty),
   whatever other commands came in between, a submission that closed the draft included.
   */
  lemma LastSaveIsReplayed(s: Story, i: nat, j: nat, d: nat, again: Command)
    requires IsStory(s) && SavesTo(s, i, d) && i < j < |s.books| && again.SaveDraft?
    requires d < |s.books[j].drafts| && s.books[j].drafts[d].saves == s.books[i + 1].drafts[d].saves
    requires var c := s.entries[i].command;
             && Strip(again.key) == Strip(c.key) && again.assessment == c.assessment && again.teacher == c.teacher
    ensures var reply, hash := Do(s.cfg, s.books[j], true, again), s.cfg.payloadHash(s.entries[i].command.rows);
            && reply.book == s.books[j]
            && reply.outcome == (if hash == "" || hash == s.cfg.payloadHash(again.rows) then Replayed(d) else Refused)
  {
    hide Do, DoSaveDraft;
    SavedDraft(s, i, d);
    StoryDraftsEvolve(s, i + 1, j);
    StoryDrafts(s, j);
    StoryDraftContexts(s, j);
    DraftByKeyIs(s.books[j].drafts, d);
    StoredKeyAnswers(s.cfg, s.books[j], d, again);
  }

  /** A key that a draft of the same context stores is answered from it. */
  lemma StoredKeyAnswers(cfg: Config, book: Book, d: nat, again: Command)
    requires again.SaveDraft? && d < |book.drafts| && DraftByKey(book.drafts, Strip(again.key)) == Some(d)
    requires Strip(again.key) != "" && again.assessment in cfg.assessments
    requires book.drafts[d].assessment == again.assessment && book.drafts[d].teacher == again.teacher
    ensures var stored := book.drafts[d].payloadHash;
            Do(cfg, book, true, again)
            == Reply(book, if stored == "" || stored == cfg.payloadHash(again.rows) then Replayed(d) else Refused)
  {
  }

  /**
   When a repeat is not recognised it can be taken for a new save.  It then extends the
   draft, whose rows it replaces, exactly when the draft is open, no draft stores the
   key any more, the rows are acceptable, and the version is absent or current.
   */
  lemma RepeatOverwrites(s: Story, j: nat, d: nat, n: nat, again: Command)
    requires IsStory(s) && Repeats(s, j, d, n, again)
    ensures again.assessment in s.cfg.assessments
    ensures var drafts, after := s.books[j].drafts, Do(s.cfg, s.books[j], true, again).book.drafts;
            var a := s.cfg.assessments[again.assessment];
            d < |after| &&
            (after[d].saves != drafts[d].saves <==>
              && drafts[d].status == Open
              && (forall x :: 0 <= x < |drafts| ==> drafts[x].key != drafts[d].saves[n].key)
              && ValidateRows(again.rows, a.roster, a.maxScore, a.components, false).Ok?
              && (again.draftVersion == None || again.draftVersion == Some(|drafts[d].saves|)))
  {
    hide ValidateRows;
    StoryDrafts(s, j);
    StoryDraftContexts(s, j);
    var drafts := s.books[j].drafts;
    assert IsLastSave(drafts[d]);
    OnlyAcceptedChanges(s.cfg, s.books[j], true, again);
    DraftByKeyFinds(drafts, Strip(again.key));
    OpenDraftFinds(drafts, again.assessment, again.teacher);
    if drafts[d].status == Open {
      OpenDraftIs(drafts, d);
    }
    if Do(s.cfg, s.books[j], true, again).outcome == Accepted {
      AcceptedSave(s.cfg, s.books[j], again);
    }
  }

  // ---- Two ways in which an update is lost after all ----

  const ROW := Row("s", map[], Score(5), "")

  function Form(hash: seq<Row> -> string): Config {
    Config(map[0 := Assessment(10, [], {"s"}, "")], _ => "", hash, (_, _) => None)
  }

  const MARK := MarkRow("s", Some(5), map[], "")

  lemma RowIsValid(complete: bool)
    ensures ValidateRows([ROW], {"s"}, 10, [], complete) == Ok([MARK])
  {
    assert Strip("s") == "s";
    assert [ROW][..0] == [];
    assert CheckRows([], {"s"}, 10, [], complete) == Ok([]);
    assert CheckBounds(5, 10) == None;
    assert Students([]) == {};
    assert CheckRow(ROW, {}, {"s"}, 10, [], complete) == Ok(MARK);
    assert [] + [MARK] == [MARK];
    assert CheckRows([ROW], {"s"}, 10, [], complete) == Ok([MARK]);
  }

  function Opened(key: string, hash: string, marks: seq<MarkRow>): Draft {
    Draft(0, 1, key, hash, 1, Open, marks, [Save(key, marks)])
  }

  lemma FirstSave(cfg: Config, book: Book, key: string, rows: seq<Row>, marks: seq<MarkRow>)
    requires cfg == Form(cfg.payloadHash) && Strip(key) == key != ""
    requires ValidateRows(rows, {"s"}, 10, [], false) == Ok(marks)
    requires forall d :: d in book.drafts ==> d.key != key && d.status == Closed
    ensures Do(cfg, book, true, SaveDraft(1, 0, rows, None, key))
            == Reply(book.(drafts := book.drafts + [Opened(key, cfg.payloadHash(rows), marks)]), Accepted)
  {
    DraftByKeyFinds(book.drafts, key);
    OpenDraftFinds(book.drafts, 0, 1);
  }

  lemma FirstSubmission(cfg: Config, book: Book)
    requires cfg == Form(cfg.payloadHash) && book.batches == [] && book.records == []
    ensures Do(cfg, book, true, Submit(1, 0, [ROW], "b", true)).outcome == Accepted
    ensures Do(cfg, book, true, Submit(1, 0, [ROW], "b", true)).book.drafts == CloseDrafts(book.drafts, 0, 1)
  {
    RowIsValid(true);
    assert Strip("b") == "b";
    assert BatchByKey(book.batches, "b") == None;
  }

  /** A story in which a save carrying the version its client read replaces rows that client never saw. */
  ghost predicate OverwritesUnseen(s: Story) {
    && IsStory(s) && |s.entries| == 4 && |s.books[1].drafts| == 1 && |s.books[3].drafts| == |s.books[4].drafts| == 2
    && s.entries[3] == Entry(true, SaveDraft(1, 0, [], Some(s.books[1].drafts[0].version), "d"))
    && s.books[3].drafts[1] == Opened("c", s.cfg.payloadHash([ROW]), [MARK])
    && s.books[4].drafts[1].rows == []
    && SavesOnRead(s, 1, 3, 0) && ReplacesUnseen(s.books[3].drafts, s.books[4].drafts, 0, s.books[1].drafts[0].saves)
  }

  lemma UntilSubmission(cfg: Config) returns (s: Story)
    requires cfg == Form(cfg.payloadHash)
    ensures IsStory(s) && s.cfg == cfg && |s.entries| == 2
    ensures s.books[1].drafts == [Opened("a", cfg.payloadHash([]), [])]
    ensures s.books[2].drafts == [Opened("a", cfg.payloadHash([]), []).(status := Closed)]
  {
    var s0 := Story(cfg, [EMPTY], []);
    assert IsStory(s0);
    assert ValidateRows([], {"s"}, 10, [], false) == Ok([]);
    FirstSave(cfg, EMPTY, "a", [], []);
    var s1 := Continued(s0, SaveDraft(1, 0, [], None, "a"));
    ContinuedIsStory(s0, SaveDraft(1, 0, [], None, "a"));
    FirstSubmission(cfg, s1.books[1]);
    s := Continued(s1, Submit(1, 0, [ROW], "b", true));
    ContinuedIsStory(s1, Submit(1, 0, [ROW], "b", true));
  }

  /** A story in which a repeated first save puts its old rows back over those of the second. */
  ghost predicate RestoresOldRows(s: Story) {
    && IsStory(s) && |s.entries| == 3
    && |s.books[1].drafts| == |s.books[2].drafts| == |s.books[3].drafts| == 1
    && s.entries[0] == s.entries[2]
    && s.books[1].drafts[0].rows == [] && s.books[2].drafts[0].rows == [MARK] && s.books[3].drafts[0].rows == []
  }

  lemma NextSave(cfg: Config, book: Book, key: string, rows: seq<Row>, marks: seq<MarkRow>)
    requires cfg == Form(cfg.payloadHash) && Strip(key) == key != ""
    requires ValidateRows(rows, {"s"}, 10, [], false) == Ok(marks)
    requires |book.drafts| == 1 && IsOpenFor(book.drafts[0], 0, 1) && book.drafts[0].key != key
    ensures var reply := Do(cfg, book, true, SaveDraft(1, 0, rows, None, key));
            && reply.outcome == Accepted && |reply.book.drafts| == 1 && IsOpenFor(reply.book.drafts[0], 0, 1)
            && reply.book.drafts[0].key == key && reply.book.drafts[0].rows == marks
  {
    DraftByKeyFinds(book.drafts, key);
    OpenDraftFinds(book.drafts, 0, 1);
  }

  /**
   A client that repeats its save without a version, as after a lost answer, undoes a
   save that another window made under its own key in between.
   */
  lemma OldKeysAreForgotten(hash: seq<Row> -> string)
    ensures exists s :: RestoresOldRows(s) && s.cfg.payloadHash == hash
  {
    hide Do;
    var s0 := Story(Form(hash), [EMPTY], []);
    assert IsStory(s0);
    assert Strip("a") == "a" && Strip("b") == "b" && "a" != "b";
    assert ValidateRows([], {"s"}, 10, [], false) == Ok([]);
    RowIsValid(false);
    var first, second := SaveDraft(1, 0, [], None, "a"), SaveDraft(1, 0, [ROW], None, "b");
    FirstSave(s0.cfg, EMPTY, "a", [], []);
    var s1 := Continued(s0, first);
    ContinuedIsStory(s0, first);
    NextSave(s1.cfg, s1.books[1], "b", [ROW], [MARK]);
    var s2 := Continued(s1, second);
    ContinuedIsStory(s1, second);
    NextSave(s2.cfg, s2.books[2], "a", [], []);
    var s3 := Continued(s2, first);
    ContinuedIsStory(s2, first);
    assert RestoresOldRows(s3);
  }

  /**
   The version alone does not protect a client across a submission: version numbers
   restart with the next draft, and a save meant for the old one is accepted on the new
   one.  This is the case that `NoLostUpdate` singles out.
   */
  lemma VersionsRestart(hash: seq<Row> -> string)
    ensures exists s :: OverwritesUnseen(s) && s.cfg.payloadHash == hash
  {
    hide Do;
    var s2 := UntilSubmission(Form(hash));
    var c2, c3 := SaveDraft(1, 0, [ROW], None, "c"), SaveDraft(1, 0, [], Some(1), "d");
    RowIsValid(false);
    FirstSave(s2.cfg, s2.books[2], "c", [ROW], [MARK]);
    var s3 := Continued(s2, c2);
    ContinuedIsStory(s2, c2);
    StaleSave(s3.cfg, s3.books[3]);
    var s4 := Continued(s3, c3);
    ContinuedIsStory(s3, c3);
    assert SavesOnRead(s4, 1, 3, 0);
    NoLostUpdate(s4, 1, 3, 0);
    assert IsOpenFor(s4.books[3].drafts[1], 0, 1);
    assert OverwritesUnseen(s4);
  }

  lemma StaleSave(cfg: Config, book: Book)
    requires cfg == Form(cfg.payloadHash) && |book.drafts| == 2
    requires book.drafts[0].key == "a" && book.drafts[0].status == Closed
    requires book.drafts[1] == Opened("c", cfg.payloadHash([ROW]), [MARK])
    ensures var reply := Do(cfg, book, true, SaveDraft(1, 0, [], Some(1), "d"));
            reply.outcome == Accepted && |reply.book.drafts| == 2 && reply.book.drafts[1].rows == []
  {
    assert Strip("d") == "d";
    assert ValidateRows([], {"s"}, 10, [], false) == Ok([]);
    DraftByKeyFinds(book.drafts, "d");
    OpenDraftFinds(book.drafts, 0, 1);
    assert "a" != "d" && "c" != "d";
  }
}
