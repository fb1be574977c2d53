/** Which saves of an assessment are accepted, when it can be graded, and what a withdrawal rules out for good. */
module GuardLaws {
  import opened Options
  import opened Binding

  /** The assessment is stored, locked, and has this very context. */
  predicate IsLockedOn(stored: Option<Assessment>, context: Context) {
    stored.Some? && stored.value.lockedAt.Some? && stored.value.context == context
  }

  /** Complete, on an active version and with a rubric of it; and in force, unless it is locked already. */
  predicate MayBind(w: World, stored: Option<Assessment>, context: Context) {
    && context.version.Some? && context.rubric.Some? && context.version.value in w.activeVersions
    && IsRubricOf(w, context.rubric.value, context.version.value, context.area)
    && (IsLockedOn(stored, context) || IsContextInForce(w, context))
  }

  /**
   A save is accepted exactly when it is a draft or its context may be bound, and it does
   not change the context of a graded assessment.  It stores what was given, and locks the
   assessment the first time it is not a draft.
   */
  lemma SaveOutcome(w: World, stored: Option<Assessment>, graded: bool, status: Status, context: Context, now: int)
    ensures SaveResult(w, stored, graded, status, context, now).Some? <==>
            (status == Draft || MayBind(w, stored, context))
            && (graded && stored.Some? ==> stored.value.context == context)
    ensures SaveResult(w, stored, graded, status, context, now).Some? ==>
              var a := SaveResult(w, stored, graded, status, context, now).value;
              && a.status == status && a.context == context
              && a.saves == (if stored.Some? then stored.value.saves else []) + [Saved(w, status, context)]
              && (stored.Some? && stored.value.lockedAt.Some? ==> a.lockedAt == stored.value.lockedAt)
              && (!(stored.Some? && stored.value.lockedAt.Some?) ==>
                    a.lockedAt == if status == Draft then None else Some(now))
  {
    GuardMeansInForce(w, context);
    hide GuardAllows, RubricMatches, IsContextInForce, IsRubricOf;
  }

  /** Grading needs an open, locked assessment whose rubric still hangs where the context says. */
  lemma OperationalMeans(w: World, a: Assessment)
    ensures IsOperationallyBound(w, a) <==>
            && a.status != Draft && a.lockedAt.Some? && a.context.version.Some? && a.context.rubric.Some?
            && IsRubricOf(w, a.context.rubric.value, a.context.version.value, a.context.area)
    ensures IsOperational(w, a) <==> a.status == Open && IsOperationallyBound(w, a)
  {
    GuardMeansInForce(w, a.context);
  }

  /** What a command may do to the world: nothing takes a withdrawal back. */
  lemma WithdrawalsStay(w: World, c: Command)
    ensures w.withdrawn <= DoCurriculum(w, c).withdrawn
    ensures c.Withdraw? ==> c.version in DoCurriculum(w, c).withdrawn
  {
  }

  lemma {:induction false} WithdrawnForGood(s: Story, i: nat, j: nat, version: nat)
    requires IsStory(s) && i < j < |s.schools| && s.commands[i] == Withdraw(version)
    ensures version in s.schools[j].world.withdrawn
    decreases j
  {
    hide DoCurriculum, SaveResult, IsOperational, IsOperationallyBound;
    assert IsNext(s, j - 1);
    WithdrawalsStay(s.schools[j - 1].world, s.commands[j - 1]);
    if i < j - 1 {
      WithdrawnForGood(s, i, j - 1, version);
    }
  }

  /**
   After a version is withdrawn, in whatever way the run goes on, no save but a draft is
   accepted on it, unless the assessment has been locked on this very context and has it still.
   */
  lemma WithdrawnIsNotTakenUp(s: Story, i: nat, j: nat, version: nat)
    requires IsStory(s) && i < j < |s.commands| && s.commands[i] == Withdraw(version)
    requires s.commands[j].SaveAssessment? && s.commands[j].context.version == Some(version)
    requires s.commands[j].status != Draft
    requires !IsLockedOn(Stored(s.schools[j], s.commands[j].id), s.commands[j].context)
    ensures SaveResult(s.schools[j].world, Stored(s.schools[j], s.commands[j].id),
                       IsGraded(s.schools[j], s.commands[j].id), s.commands[j].status,
                       s.commands[j].context, s.commands[j].now) == None
    ensures s.schools[j + 1] == s.schools[j]
  {
    var c, school := s.commands[j], s.schools[j];
    WithdrawnForGood(s, i, j, version);
    SaveOutcome(school.world, Stored(school, c.id), IsGraded(school, c.id), c.status, c.context, c.now);
    assert IsNext(s, j);
  }
}
