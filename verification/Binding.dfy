/**
 The curriculum context of assessments.  Curriculum versions are published, adopted and
 withdrawn while assessments are saved, graded and compiled; once grading has begun the
 context of an assessment is frozen.
 */
module Binding {
  import opened Options

  // ---- The curriculum of one school ----

  /** Where a rubric hangs in a curriculum: the version and learning area of its sub-strand. */
  datatype Place = Place(version: nat, area: nat, areaActive: bool)

  datatype Rubric = Rubric(active: bool, place: Option<Place>)

  datatype Publication = Publication(version: nat, active: bool)

  datatype AdoptionStatus = Scheduled | Active | Ended

  datatype Adoption = Adoption(version: nat, status: AdoptionStatus)

  datatype World = World(
    activeVersions: set<nat>,
    rubrics: map<nat, Rubric>,
    publications: seq<Publication>,
    adoptions: seq<Adoption>,
    withdrawn: set<nat>)

  predicate IsPublished(w: World, version: nat) {
    exists i :: 0 <= i < |w.publications| && w.publications[i] == Publication(version, true)
  }

  predicate IsAdopted(w: World, version: nat) {
    exists i :: 0 <= i < |w.adoptions| && w.adoptions[i].version == version && w.adoptions[i].status != Ended
  }

  // ---- Assessments ----

  datatype Status = Draft | Open | Locked | Submitted | Approved | Archived

  datatype Context = Context(version: Option<nat>, area: nat, rubric: Option<nat>)

  predicate RubricMatches(w: World, c: Context) {
    && c.version.Some? && c.rubric.Some? && c.rubric.value in w.rubrics
    && var rubric := w.rubrics[c.rubric.value];
    && rubric.active && rubric.place.Some?
    && rubric.place.value.version == c.version.value && rubric.place.value.area == c.area
  }

  /** The guard that grading asks of the curriculum before it binds to a context. */
  predicate GuardAllows(w: World, c: Context) {
    && c.version.Some?
    && c.version.value !in w.withdrawn
    && IsPublished(w, c.version.value)
    && IsAdopted(w, c.version.value)
    && RubricMatches(w, c) && w.rubrics[c.rubric.value].place.value.areaActive
  }

  /** The rubric is in use and hangs in this version and learning area. */
  predicate IsRubricOf(w: World, rubric: nat, version: nat, area: nat) {
    && rubric in w.rubrics && w.rubrics[rubric].active && w.rubrics[rubric].place.Some?
    && w.rubrics[rubric].place.value.version == version && w.rubrics[rubric].place.value.area == area
  }

  /** Not withdrawn, published, adopted or scheduled for adoption, with an active area and a rubric of it. */
  predicate IsInForce(w: World, version: nat, area: nat, rubric: nat) {
    && version !in w.withdrawn
    && (exists i :: 0 <= i < |w.publications| && w.publications[i].version == version && w.publications[i].active)
    && (exists i :: 0 <= i < |w.adoptions| && w.adoptions[i].version == version
                    && (w.adoptions[i].status == Scheduled || w.adoptions[i].status == Active))
    && IsRubricOf(w, rubric, version, area) && w.rubrics[rubric].place.value.areaActive
  }

  /** A version, a rubric, and everything in force. */
  predicate IsContextInForce(w: World, c: Context) {
    c.version.Some? && c.rubric.Some? && IsInForce(w, c.version.value, c.area, c.rubric.value)
  }

  /** The guard allows exactly the contexts that are in force. */
  lemma GuardMeansInForce(w: World, c: Context)
    ensures GuardAllows(w, c) <==> IsContextInForce(w, c)
    ensures RubricMatches(w, c) <==>
            c.version.Some? && c.rubric.Some? && IsRubricOf(w, c.rubric.value, c.version.value, c.area)
  {
    if c.version.Some? {
      if IsPublished(w, c.version.value) {
        var i :| 0 <= i < |w.publications| && w.publications[i] == Publication(c.version.value, true);
        assert w.publications[i].version == c.version.value && w.publications[i].active;
      }
      if i :| 0 <= i < |w.publications| && w.publications[i].version == c.version.value && w.publications[i].active {
        assert w.publications[i] == Publication(c.version.value, true);
      }
    }
  }

  /** One accepted save, in the world it saw; kept for the statement of properties only. */
  datatype Saved = Saved(world: World, status: Status, context: Context)

  datatype Assessment = Assessment(status: Status, context: Context, lockedAt: Option<int>, saves: seq<Saved>)

  /** A complete context, active version, matching rubric, and the guard's answer when it was asked. */
  predicate IsBound(w: World, c: Context, guard: bool) {
    c.version.Some? && c.rubric.Some? && c.version.value in w.activeVersions && guard && RubricMatches(w, c)
  }

  /** None when validation refuses the save. */
  function SaveResult(w: World, stored: Option<Assessment>, graded: bool, status: Status, context: Context, now: int)
    : Option<Assessment>
  {
    var lockedAt := if stored.Some? then stored.value.lockedAt else None;
    var changed := stored.Some? && stored.value.context != context;
    var preserved := lockedAt.Some? && !changed;
    if status != Draft && !IsBound(w, context, preserved || GuardAllows(w, context)) then None
    else if changed && graded then None
    else
      var lockedAt' := if status != Draft && lockedAt == None then Some(now) else lockedAt;
      var before := if stored.Some? then stored.value.saves else [];
      Some(Assessment(status, context, lockedAt', before + [Saved(w, status, context)]))
  }

  /** The cheap check on the stored row; it takes the version to be active and published. */
  predicate IsOperationallyBound(w: World, a: Assessment) {
    && a.status != Draft && a.lockedAt.Some?
    && a.context.version.Some? && a.context.rubric.Some? && RubricMatches(w, a.context)
  }

  /** What grading and compilation ask for. */
  predicate IsOperational(w: World, a: Assessment) {
    a.status == Open && IsOperationallyBound(w, a)
  }

  /** What one compilation stored about the context, with its number of learner snapshots. */
  datatype Shot = Shot(assessment: nat, context: Context, learners: nat)

  /** `batches` holds the assessments with a batch that is not a draft, `records` counts their grade records. */
  datatype School = School(
    world: World,
    assessments: map<nat, Assessment>,
    batches: set<nat>,
    records: map<nat, nat>,
    shots: seq<Shot>)

  function RecordCount(s: School, id: nat): nat {
    if id in s.records then s.records[id] else 0
  }

  /** Grading has begun: the context may not change any more. */
  predicate IsGraded(s: School, id: nat) {
    id in s.batches || RecordCount(s, id) > 0
  }

  datatype Command =
    | EditVersion(version: nat, active: bool)
    | EditRubric(rubric: nat, value: Rubric)
    | Publish(version: nat)
    | Supersede(publication: nat)
    | Schedule(version: nat)
    | Activate(adoption: nat)
    | Withdraw(version: nat)
    | SaveAssessment(id: nat, status: Status, context: Context, now: int)
    | AddBatch(id: nat)
    | Grade(id: nat, rows: nat)
    | Compile(id: nat)

  /** What an adoption that is scheduled or active must satisfy when it is saved. */
  predicate Adoptable(w: World, version: nat) {
    version in w.activeVersions && IsPublished(w, version) && version !in w.withdrawn
  }

  function DoCurriculum(w: World, c: Command): World {
    match c
    case EditVersion(v, active) =>
      w.(activeVersions := if active then w.activeVersions + {v} else w.activeVersions - {v})
    case EditRubric(r, value) => w.(rubrics := w.rubrics[r := value])
    case Publish(v) => if IsPublished(w, v) then w else w.(publications := w.publications + [Publication(v, true)])
    case Supersede(p) =>
      if p >= |w.publications| then w
      else w.(publications := w.publications[p := w.publications[p].(active := false)])
    case Schedule(v) =>
      if !Adoptable(w, v) || IsAdopted(w, v) then w else w.(adoptions := w.adoptions + [Adoption(v, Scheduled)])
    case Activate(i) =>
      if i >= |w.adoptions| || !Adoptable(w, w.adoptions[i].version)
         || (w.adoptions[i].status == Ended && IsAdopted(w, w.adoptions[i].version))
      then w
      else w.(adoptions := w.adoptions[i := w.adoptions[i].(status := Active)])
    case Withdraw(v) => w.(withdrawn := w.withdrawn + {v})
    case _ => w
  }

  function Stored(s: School, id: nat): Option<Assessment> {
    if id in s.assessments then Some(s.assessments[id]) else None
  }

  function Do(s: School, c: Command): School {
    match c
    case SaveAssessment(id, status, context, now) =>
      (match SaveResult(s.world, Stored(s, id), IsGraded(s, id), status, context, now)
       case None => s
       case Some(a) => s.(assessments := s.assessments[id := a]))
    case AddBatch(id) =>
      if id !in s.assessments || !IsOperationallyBound(s.world, s.assessments[id]) then s
      else s.(batches := s.batches + {id})
    case Grade(id, rows) =>
      if rows == 0 || id !in s.assessments || !IsOperational(s.world, s.assessments[id]) then s
      else s.(batches := s.batches + {id}, records := s.records[id := RecordCount(s, id) + rows])
    case Compile(id) =>
      if id !in s.assessments || !IsOperational(s.world, s.assessments[id]) then s
      else s.(shots := s.shots + [Shot(id, s.assessments[id].context, RecordCount(s, id))])
    case _ => s.(world := DoCurriculum(s.world, c))
  }

  // ---- What the save history of an assessment shows ----

  ghost predicate IsLocked(saves: seq<Saved>, i: nat)
    requires i <= |saves|
  {
    exists j :: 0 <= j < i && saves[j].status != Draft
  }

  predicate KeepsContext(saves: seq<Saved>, i: nat)
    requires i < |saves|
  {
    i > 0 && saves[i].context == saves[i - 1].context
  }

  /** The save that gave the present context. */
  function LastSet(saves: seq<Saved>): (i: nat)
    requires saves != []
    ensures i < |saves| && !KeepsContext(saves, i)
    ensures forall k :: i < k < |saves| ==> KeepsContext(saves, k)
    ensures forall k :: i <= k < |saves| ==> saves[k].context == saves[|saves| - 1].context
  {
    var n := |saves| - 1;
    if KeepsContext(saves, n) then
      var i := LastSet(saves[..n]);
      assert forall k :: 0 <= k < n ==> KeepsContext(saves, k) == KeepsContext(saves[..n], k);
      i
    else n
  }

  /** The save consulted the guard, which it must have passed to be accepted. */
  ghost predicate Consulted(saves: seq<Saved>, i: nat)
    requires i < |saves|
  {
    saves[i].status != Draft && !(IsLocked(saves, i) && KeepsContext(saves, i))
  }

  /** The guard was consulted about the present context, when it was set or later. */
  ghost predicate IsVouched(saves: seq<Saved>)
    requires saves != []
  {
    exists i :: LastSet(saves) <= i < |saves| && Consulted(saves, i)
  }

  /** The present context was set while the assessment was back in draft after it had been locked. */
  ghost predicate WasReset(saves: seq<Saved>)
    requires saves != []
  {
    saves[LastSet(saves)].status == Draft && IsLocked(saves, LastSet(saves))
  }

  ghost predicate SavesOk(saves: seq<Saved>) {
    forall i :: 0 <= i < |saves| && Consulted(saves, i) ==> GuardAllows(saves[i].world, saves[i].context)
  }

  ghost predicate HistoryOk(a: Assessment) {
    && a.saves != []
    && a.status == a.saves[|a.saves| - 1].status && a.context == a.saves[|a.saves| - 1].context
    && (a.lockedAt.Some? <==> IsLocked(a.saves, |a.saves|))
    && SavesOk(a.saves)
    && (a.status != Draft ==> a.context.version.Some? && a.context.rubric.Some?)
  }

  /** The first operational save after `from` of an assessment that was not locked before. */
  lemma {:induction false} FirstLocking(saves: seq<Saved>, from: nat, last: nat) returns (i: nat)
    requires from <= last < |saves| && saves[last].status != Draft && !IsLocked(saves, from)
    ensures from <= i <= last && saves[i].status != Draft && !IsLocked(saves, i)
    decreases last
  {
    if IsLocked(saves, last) {
      var j :| 0 <= j < last && saves[j].status != Draft;
      i := FirstLocking(saves, from, j);
    } else {
      i := last;
    }
  }

  /**
   For an assessment in any status but draft: the guard was consulted about its context,
   when that was set or later, exactly if the context was not set back in draft after
   locking.
   */
  lemma VouchedUnlessReset(saves: seq<Saved>)
    requires saves != [] && saves[|saves| - 1].status != Draft
    ensures IsVouched(saves) <==> !WasReset(saves)
  {
    var last := LastSet(saves);
    if saves[last].status != Draft {
      assert Consulted(saves, last);
    } else if !IsLocked(saves, last) {
      var i := FirstLocking(saves, last, |saves| - 1);
      assert Consulted(saves, i);
    } else {
      forall i | last <= i < |saves|
        ensures !Consulted(saves, i)
      {
        assert IsLocked(saves, i);
      }
    }
  }

  lemma LockedByOneMore(before: seq<Saved>, x: Saved, i: nat)
    requires i <= |before|
    ensures IsLocked(before + [x], i) == IsLocked(before, i)
    ensures i == |before| ==> IsLocked(before + [x], i + 1) == (IsLocked(before, i) || x.status != Draft)
  {
    var saves := before + [x];
    assert forall j :: 0 <= j < |before| ==> saves[j] == before[j];
    if i == |before| && x.status != Draft {
      assert saves[i].status != Draft;
    }
    if IsLocked(before, i) {
      var j :| 0 <= j < i && before[j].status != Draft;
      assert saves[j].status != Draft;
    }
  }

  lemma OneMoreSave(before: seq<Saved>, x: Saved)
    requires SavesOk(before)
    requires Consulted(before + [x], |before|) ==> GuardAllows(x.world, x.context)
    ensures SavesOk(before + [x])
  {
    var saves := before + [x];
    forall i | 0 <= i < |saves| && Consulted(saves, i)
      ensures GuardAllows(saves[i].world, saves[i].context)
    {
      if i < |before| {
        LockedByOneMore(before, x, i);
        assert Consulted(before, i);
      }
    }
  }

  function SavesOf(stored: Option<Assessment>): seq<Saved> {
    if stored.Some? then stored.value.saves else []
  }

  /** An accepted save that consults the guard has passed it. */
  lemma ConsultedSavePassed(w: World, stored: Option<Assessment>, graded: bool, status: Status, context: Context,
                            now: int)
    requires stored.Some? ==> HistoryOk(stored.value)
    requires SaveResult(w, stored, graded, status, context, now).Some?
    ensures var saves := SavesOf(stored) + [Saved(w, status, context)];
            Consulted(saves, |saves| - 1) ==> GuardAllows(w, context)
  {
    hide GuardAllows, RubricMatches, SavesOk;
    LockedByOneMore(SavesOf(stored), Saved(w, status, context), |SavesOf(stored)|);
    hide IsLocked;
  }

  lemma SaveKeepsHistory(w: World, stored: Option<Assessment>, graded: bool, status: Status, context: Context, now: int)
    requires stored.Some? ==> HistoryOk(stored.value)
    requires SaveResult(w, stored, graded, status, context, now).Some?
    ensures HistoryOk(SaveResult(w, stored, graded, status, context, now).value)
  {
    hide GuardAllows, RubricMatches, Consulted, IsLocked, SavesOk;
    var before, x := SavesOf(stored), Saved(w, status, context);
    ConsultedSavePassed(w, stored, graded, status, context, now);
    LockedByOneMore(before, x, |before|);
    NoSavesAreOk();
    OneMoreSave(before, x);
  }

  lemma NoSavesAreOk()
    ensures SavesOk([]) && !IsLocked([], 0)
  {
  }

  // ---- Runs ----

  datatype Story = Story(schools: seq<School>, commands: seq<Command>)

  predicate IsEmpty(s: School) {
    s.assessments == map[] && s.batches == {} && s.records == map[] && s.shots == []
  }

  ghost predicate IsStory(s: Story) {
    && |s.schools| == |s.commands| + 1
    && IsEmpty(s.schools[0])
    && forall k :: 0 <= k < |s.commands| ==> IsNext(s, k)
  }

  ghost predicate IsNext(s: Story, k: nat)
    requires k < |s.commands| < |s.schools|
  {
    s.schools[k + 1] == Do(s.schools[k], s.commands[k])
  }

  /** Graded assessments are locked on a complete context, and learner snapshots repeat it. */
  ghost predicate GradedOk(s: School) {
    && (forall id :: id in s.records ==> id in s.batches && s.records[id] > 0)
    && (forall id :: id in s.batches ==>
          && id in s.assessments && s.assessments[id].lockedAt.Some?
          && s.assessments[id].context.version.Some? && s.assessments[id].context.rubric.Some?)
    && (forall n :: 0 <= n < |s.shots| && s.shots[n].learners > 0 ==>
          && s.shots[n].assessment in s.batches
          && s.shots[n].context == s.assessments[s.shots[n].assessment].context)
  }

  ghost predicate HistoriesOk(s: School) {
    forall id :: id in s.assessments ==> HistoryOk(s.assessments[id])
  }

  lemma DoKeepsGraded(s: School, c: Command)
    requires GradedOk(s)
    ensures GradedOk(Do(s, c))
    ensures forall id :: id in s.batches ==>
              id in Do(s, c).batches && Do(s, c).assessments[id].context == s.assessments[id].context
  {
    hide DoCurriculum, GuardAllows, RubricMatches;
  }

  lemma DoKeepsHistories(s: School, c: Command)
    requires HistoriesOk(s)
    ensures HistoriesOk(Do(s, c))
  {
    if c.SaveAssessment?
       && SaveResult(s.world, Stored(s, c.id), IsGraded(s, c.id), c.status, c.context, c.now).Some?
    {
      SaveKeepsHistory(s.world, Stored(s, c.id), IsGraded(s, c.id), c.status, c.context, c.now);
    }
  }

  lemma {:induction false} StoryOk(s: Story, k: nat)
    requires IsStory(s) && k < |s.schools|
    ensures GradedOk(s.schools[k]) && HistoriesOk(s.schools[k])
  {
    if 0 < k {
      StoryOk(s, k - 1);
      assert IsNext(s, k - 1);
      DoKeepsGraded(s.schools[k - 1], s.commands[k - 1]);
      DoKeepsHistories(s.schools[k - 1], s.commands[k - 1]);
    }
  }

  /** A graded assessment stays as it was bound. */
  ghost predicate IsFrozen(before: School, after: School, id: nat) {
    && id in before.assessments && id in after.assessments && id in after.batches
    && after.assessments[id].context == before.assessments[id].context
    && after.assessments[id].lockedAt.Some?
  }

  lemma GradedIsFrozen(s: School, c: Command, id: nat)
    requires GradedOk(s) && id in s.batches
    ensures IsFrozen(s, Do(s, c), id)
  {
    DoKeepsGraded(s, c);
  }

  /**
   Once an assessment has a batch that is not a draft, or a record, its version, learning
   area and rubric never change, whatever is published, adopted, withdrawn or saved afterwards.
   */
  lemma {:induction false} ContextIsFrozen(s: Story, i: nat, j: nat, id: nat)
    requires IsStory(s) && i <= j < |s.schools| && IsGraded(s.schools[i], id)
    ensures IsFrozen(s.schools[i], s.schools[j], id)
    decreases j
  {
    if i < j {
      hide Do, HistoriesOk, GradedOk;
      StoryOk(s, j - 1);
      ContextIsFrozen(s, i, j - 1, id);
      assert IsNext(s, j - 1);
      GradedIsFrozen(s.schools[j - 1], s.commands[j - 1], id);
    } else {
      StoryOk(s, i);
    }
  }

  /** Hence all learner snapshots of an assessment agree with it and with each other. */
  lemma LearnerSnapshotsAgree(s: Story, k: nat, m: nat, n: nat)
    requires IsStory(s) && k < |s.schools| && m < |s.schools[k].shots| && n < |s.schools[k].shots|
    requires var shots := s.schools[k].shots;
             shots[m].assessment == shots[n].assessment && shots[m].learners > 0 && shots[n].learners > 0
    ensures var shots := s.schools[k].shots;
            && shots[m].context == shots[n].context
            && shots[m].assessment in s.schools[k].assessments
            && shots[m].context == s.schools[k].assessments[shots[m].assessment].context
  {
    StoryOk(s, k);
  }

  // ---- Where the saves of a history happened in the run ----

  function SavesAt(s: Story, k: nat, id: nat): seq<Saved>
    requires k < |s.schools|
  {
    if id in s.schools[k].assessments then s.schools[k].assessments[id].saves else []
  }

  /** Command `m` is this save. */
  ghost predicate Makes(s: Story, m: nat, id: nat, save: Saved) {
    && m < |s.commands| && m < |s.schools|
    && s.commands[m].SaveAssessment? && s.commands[m].id == id
    && save == Saved(s.schools[m].world, s.commands[m].status, s.commands[m].context)
  }

  /** A command leaves the saves of an assessment alone, or is one more. */
  lemma SavesAfterStep(s: Story, k: nat, id: nat)
    requires IsStory(s) && k < |s.commands|
    ensures SavesAt(s, k + 1, id) == SavesAt(s, k, id)
            || (|SavesAt(s, k + 1, id)| == |SavesAt(s, k, id)| + 1
                && SavesAt(s, k + 1, id)[..|SavesAt(s, k, id)|] == SavesAt(s, k, id)
                && Makes(s, k, id, SavesAt(s, k + 1, id)[|SavesAt(s, k, id)|]))
  {
    hide GuardAllows, RubricMatches, IsBound, DoCurriculum;
    assert IsNext(s, k);
  }

  lemma {:induction false} SavesGrow(s: Story, n: nat, k: nat, id: nat)
    requires IsStory(s) && n <= k < |s.schools|
    ensures SavesAt(s, n, id) <= SavesAt(s, k, id)
    decreases k
  {
    if n < k {
      hide IsStory, SavesAt;
      SavesGrow(s, n, k - 1, id);
      SavesAfterStep(s, k - 1, id);
    }
  }

  /** The command that made save `i`, before which there were exactly `i` saves. */
  lemma {:induction false} StepOfSave(s: Story, k: nat, id: nat, i: nat) returns (m: nat)
    requires IsStory(s) && k < |s.schools| && i < |SavesAt(s, k, id)|
    ensures m < k && Makes(s, m, id, SavesAt(s, k, id)[i])
    ensures |SavesAt(s, m + 1, id)| == i + 1
  {
    SavesAfterStep(s, k - 1, id);
    if i < |SavesAt(s, k - 1, id)| {
      m := StepOfSave(s, k - 1, id, i);
    } else {
      m := k - 1;
    }
  }

  /** From command `m` on, the assessment has kept this context. */
  ghost predicate KeptSince(s: Story, m: nat, k: nat, id: nat, context: Context) {
    forall n :: m < n <= k && n < |s.schools| ==>
      id in s.schools[n].assessments && s.schools[n].assessments[id].context == context
  }

  lemma ContextIsLastSaved(s: Story, k: nat, id: nat)
    requires IsStory(s) && k < |s.schools| && id in s.schools[k].assessments
    ensures SavesAt(s, k, id) != []
    ensures s.schools[k].assessments[id].context == SavesAt(s, k, id)[|SavesAt(s, k, id)| - 1].context
  {
    StoryOk(s, k);
    assert HistoryOk(s.schools[k].assessments[id]);
  }

  /** A save at or after the last one that set the context has been kept since. */
  lemma LateSavesAreKept(s: Story, m: nat, k: nat, id: nat)
    requires IsStory(s) && m < k < |s.schools| && id in s.schools[k].assessments && SavesAt(s, k, id) != []
    requires LastSet(SavesAt(s, k, id)) < |SavesAt(s, m + 1, id)|
    ensures KeptSince(s, m, k, id, s.schools[k].assessments[id].context)
  {
    ContextIsLastSaved(s, k, id);
    var saves := SavesAt(s, k, id);
    forall n | m < n <= k
      ensures id in s.schools[n].assessments
      ensures s.schools[n].assessments[id].context == s.schools[k].assessments[id].context
    {
      SavesGrow(s, m + 1, n, id);
      SavesGrow(s, n, k, id);
      ContextIsLastSaved(s, n, id);
    }
  }

  /** The context was in force when command `m` saved the assessment with this context, which it has kept since. */
  ghost predicate PassedAt(s: Story, m: nat, k: nat, id: nat, context: Context) {
    && m < k && m < |s.commands| && m < |s.schools|
    && IsContextInForce(s.schools[m].world, context)
    && s.commands[m].SaveAssessment? && s.commands[m].id == id && s.commands[m].context == context
    && KeptSince(s, m, k, id, context)
  }

  /**
   The context of an assessment that is not in draft was published, adopted, not
   withdrawn and matched by its rubric at a save that gave it this very context, which
   it has kept since, unless it was set back in draft after locking.
   */
  lemma ContextPassedTheGuard(s: Story, k: nat, id: nat)
    requires IsStory(s) && k < |s.schools| && id in s.schools[k].assessments
    requires s.schools[k].assessments[id].status != Draft
    ensures s.schools[k].assessments[id].saves != []
    ensures var a := s.schools[k].assessments[id];
            && (IsVouched(a.saves) <==> !WasReset(a.saves))
            && (IsVouched(a.saves) ==> exists m :: PassedAt(s, m, k, id, a.context))
  {
    StoryOk(s, k);
    var a := s.schools[k].assessments[id];
    assert HistoryOk(a);
    VouchedUnlessReset(a.saves);
    if IsVouched(a.saves) {
      var i :| LastSet(a.saves) <= i < |a.saves| && Consulted(a.saves, i);
      assert GuardAllows(a.saves[i].world, a.context);
      var m := StepOfSave(s, k, id, i);
      LateSavesAreKept(s, m, k, id);
      GuardMeansInForce(s.schools[m].world, a.context);
      assert PassedAt(s, m, k, id, a.context);
    }
  }

  /** The curriculum facts that a save of an unchanged, locked context still looks at. */
  predicate LooksTheSame(w: World, w': World) {
    w'.activeVersions == w.activeVersions && w'.rubrics == w.rubrics
  }

  /**
   A locked assessment saved with the context it has is not guarded at all: publications,
   adoptions and withdrawals make no difference, so a context that was reset in draft is
   never checked against them, and one that had passed survives a withdrawal.
   */
  lemma LockedContextIsUnguarded(w: World, w': World, a: Assessment, graded: bool, status: Status, now: int)
    requires a.lockedAt.Some? && LooksTheSame(w, w')
    ensures SaveResult(w, Some(a), graded, status, a.context, now).Some? <==>
            SaveResult(w', Some(a), graded, status, a.context, now).Some?
    ensures SaveResult(w, Some(a), graded, status, a.context, now).Some? <==>
            status == Draft
            || (a.context.version.Some? && a.context.version.value in w.activeVersions && RubricMatches(w, a.context))
  {
  }

  /** Nothing was ever published, and yet the assessment is graded on this version. */
  ghost predicate GradedUnpublished(s: Story, id: nat) {
    && IsStory(s) && |s.commands| == 4 && id in s.schools[4].records && id in s.schools[4].assessments
    && s.schools[4].assessments[id].context.version.Some?
    && var version := s.schools[4].assessments[id].context.version.value;
       forall k :: 0 <= k < |s.schools| ==> !IsPublished(s.schools[k].world, version)
  }

  const TWO_VERSIONS := World(
    {1, 2},
    map[1 := Rubric(true, Some(Place(1, 7, true))), 2 := Rubric(true, Some(Place(2, 7, true)))],
    [Publication(1, true)], [Adoption(1, Active)], {})

  const PUBLISHED := Context(Some(1), 7, Some(1))
  const UNPUBLISHED := Context(Some(2), 7, Some(2))

  lemma ThreeSaves() returns (first: Assessment, second: Assessment, third: Assessment)
    ensures SaveResult(TWO_VERSIONS, None, false, Open, PUBLISHED, 0) == Some(first)
    ensures SaveResult(TWO_VERSIONS, Some(first), false, Draft, UNPUBLISHED, 1) == Some(second)
    ensures SaveResult(TWO_VERSIONS, Some(second), false, Open, UNPUBLISHED, 2) == Some(third)
    ensures third.context == UNPUBLISHED && IsOperational(TWO_VERSIONS, third)
  {
    var w := TWO_VERSIONS;
    assert w.publications[0] == Publication(1, true) && w.adoptions[0] == Adoption(1, Active);
    assert GuardAllows(w, PUBLISHED);
    var s1, s2, s3 := Saved(w, Open, PUBLISHED), Saved(w, Draft, UNPUBLISHED), Saved(w, Open, UNPUBLISHED);
    first := Assessment(Open, PUBLISHED, Some(0), [] + [s1]);
    second := Assessment(Draft, UNPUBLISHED, Some(0), first.saves + [s2]);
    third := Assessment(Open, UNPUBLISHED, Some(0), second.saves + [s3]);
  }

  lemma GradeIsDone(s: School, id: nat, rows: nat)
    requires rows > 0 && id in s.assessments && IsOperational(s.world, s.assessments[id])
    ensures Do(s, Grade(id, rows))
            == s.(batches := s.batches + {id}, records := s.records[id := RecordCount(s, id) + rows])
  {
  }

  lemma SaveIsDone(s: School, c: Command, a: Assessment)
    requires c.SaveAssessment?
    requires SaveResult(s.world, Stored(s, c.id), IsGraded(s, c.id), c.status, c.context, c.now) == Some(a)
    ensures Do(s, c) == s.(assessments := s.assessments[c.id := a])
  {
  }

  /**
   The exception is real: an assessment that is opened on a published version, taken
   back to draft, given an unpublished version and reopened is graded on the latter.
   */
  lemma ReopeningBypassesTheGuard()
    ensures exists s: Story, id: nat :: GradedUnpublished(s, id)
  {
    hide Do, SaveResult, IsOperational;
    var first, second, third := ThreeSaves();
    var s0 := School(TWO_VERSIONS, map[], {}, map[], []);
    var s1 := s0.(assessments := map[0 := first]);
    var s2 := s0.(assessments := map[0 := second]);
    var s3 := s0.(assessments := map[0 := third]);
    var s4 := s3.(batches := {0}, records := map[0 := 1]);
    var c0, c1, c2, c3 := SaveAssessment(0, Open, PUBLISHED, 0), SaveAssessment(0, Draft, UNPUBLISHED, 1),
                          SaveAssessment(0, Open, UNPUBLISHED, 2), Grade(0, 1);
    var s := Story([s0, s1, s2, s3, s4], [c0, c1, c2, c3]);
    SaveIsDone(s0, c0, first);
    SaveIsDone(s1, c1, second);
    SaveIsDone(s2, c2, third);
    assert s1.assessments == s0.assessments[0 := first];
    assert s2.assessments == s1.assessments[0 := second];
    assert s3.assessments == s2.assessments[0 := third];
    GradeIsDone(s3, 0, 1);
    assert s4.records == s3.records[0 := 1];
    assert IsNext(s, 0) && IsNext(s, 1) && IsNext(s, 2) && IsNext(s, 3);
    assert IsStory(s);
    assert GradedUnpublished(s, 0);
  }
}
