/**
 Saving, grading and compiling assessments, and governing the curriculum, as they run.
 Each method is one transaction whose contract is the command's effect in `Binding`.
 */
module BindingService {
  import opened Options
  import opened Binding

  ghost predicate Keeps(s: School) {
    GradedOk(s) && HistoriesOk(s)
  }

  lemma DoKeeps(s: School, c: Command)
    requires Keeps(s)
    ensures Keeps(Do(s, c))
  {
    DoKeepsGraded(s, c);
    DoKeepsHistories(s, c);
  }

  class Registry {
    var world: World
    var assessments: map<nat, Assessment>
    var batches: set<nat>
    var records: map<nat, nat>
    var shots: seq<Shot>

    function State(): School
      reads this
    {
      School(world, assessments, batches, records, shots)
    }

    ghost predicate Valid()
      reads this
    {
      Keeps(State())
    }

    constructor (world: World)
      ensures State() == School(world, map[], {}, map[], []) && Valid()
    {
      this.world, assessments, batches, records, shots := world, map[], {}, map[], [];
    }

    /** `validate_curriculum_binding`, with the publication check skipped for a preserved context. */
    method BindingIsValid(status: Status, context: Context, preserved: bool) returns (valid: bool)
      ensures valid <==> status == Draft || IsBound(world, context, preserved || GuardAllows(world, context))
    {
      if status == Draft {
        return true;
      }
      if context.version == None || context.rubric == None || context.version.value !in world.activeVersions {
        return false;
      }
      if !preserved && !GuardAllows(world, context) {
        return false;
      }
      valid := RubricMatches(world, context);
    }

    /** `Assessment.save`: validate, lock the binding on the first operational save, store. */
    method Save(id: nat, status: Status, context: Context, now: int) returns (accepted: bool)
      requires Valid()
      modifies `assessments
      ensures State() == Do(old(State()), SaveAssessment(id, status, context, now))
      ensures accepted <==>
              SaveResult(world, old(Stored(State(), id)), IsGraded(State(), id), status, context, now).Some?
      ensures Valid()
    {
      DoKeeps(State(), SaveAssessment(id, status, context, now));
      var lockedAt, changed, saves := None, false, [];
      if id in assessments {
        lockedAt := assessments[id].lockedAt;
        changed := assessments[id].context != context;
        saves := assessments[id].saves;
      }
      var valid := BindingIsValid(status, context, lockedAt.Some? && !changed);
      if !valid || (changed && IsGraded(State(), id)) {
        return false;
      }
      if status != Draft && lockedAt == None {
        lockedAt := Some(now);
      }
      assessments := assessments[id := Assessment(status, context, lockedAt, saves + [Saved(world, status, context)])];
      accepted := true;
    }

    /** An assessment that is open and passes `is_operationally_bound`, whether its version is still active or not. */
    predicate CanBeGraded(id: nat)
      reads this
    {
      id in assessments && IsOperational(world, assessments[id])
    }

    /** A batch that is not a draft is saved; it needs no records yet. */
    method SaveBatch(id: nat) returns (accepted: bool)
      requires Valid()
      modifies `batches
      ensures State() == Do(old(State()), AddBatch(id)) && Valid()
      ensures accepted <==> id in assessments && IsOperationallyBound(world, assessments[id])
      ensures batches == if accepted then old(batches) + {id} else old(batches)
    {
      DoKeeps(State(), AddBatch(id));
      accepted := id in assessments && IsOperationallyBound(world, assessments[id]);
      if accepted {
        batches := batches + {id};
      }
    }

    method InsertRecords(id: nat, rows: nat) returns (accepted: bool)
      modifies `batches, `records
      ensures State() == Do(old(State()), Grade(id, rows))
      ensures accepted <==> rows > 0 && CanBeGraded(id)
    {
      accepted := rows > 0 && CanBeGraded(id);
      if accepted {
        batches := batches + {id};
        records := records[id := RecordCount(State(), id) + rows];
      }
    }

    /** The part of a submission that concerns the binding: a batch with records for an operational assessment. */
    method AddRecords(id: nat, rows: nat) returns (accepted: bool)
      requires Valid()
      modifies `batches, `records
      ensures State() == Do(old(State()), Grade(id, rows)) && Valid()
      ensures accepted <==> rows > 0 && CanBeGraded(id)
      ensures accepted ==>
                && batches == old(batches) + {id} && id in records
                && records == old(records)[id := records[id]]
                && records[id] == rows + if id in old(records) then old(records)[id] else 0
    {
      DoKeeps(State(), Grade(id, rows));
      accepted := InsertRecords(id, rows);
    }

    /** The part of a compilation that concerns the binding: the context its snapshots repeat. */
    method TakeSnapshots(id: nat) returns (accepted: bool)
      requires Valid()
      modifies `shots
      ensures State() == Do(old(State()), Compile(id)) && Valid()
      ensures accepted <==> CanBeGraded(id)
      ensures accepted ==>
                shots == old(shots) + [Shot(id, assessments[id].context, if id in records then records[id] else 0)]
    {
      DoKeeps(State(), Compile(id));
      accepted := CanBeGraded(id);
      if accepted {
        shots := shots + [Shot(id, assessments[id].context, RecordCount(State(), id))];
      }
    }

    // ---- Curriculum governance ----

    method PublishVersion(version: nat) returns (accepted: bool)
      requires Valid()
      modifies `world
      ensures State() == Do(old(State()), Publish(version)) && Valid()
      ensures accepted <==> !old(IsPublished(world, version))
      ensures world == if accepted then old(world).(publications := old(world).publications
                                                                    + [Publication(version, true)])
                       else old(world)
    {
      accepted := !IsPublished(world, version);
      if accepted {
        world := world.(publications := world.publications + [Publication(version, true)]);
      }
    }

    method SupersedePublication(publication: nat)
      requires Valid() && publication < |world.publications|
      modifies `world
      ensures State() == Do(old(State()), Supersede(publication)) && Valid()
      ensures |world.publications| == |old(world).publications| && !world.publications[publication].active
      ensures forall i :: 0 <= i < |world.publications| && i != publication ==>
                world.publications[i] == old(world).publications[i]
    {
      var superseded := world.publications[publication].(active := false);
      world := world.(publications := world.publications[publication := superseded]);
    }

    method ScheduleAdoption(version: nat) returns (accepted: bool)
      requires Valid()
      modifies `world
      ensures State() == Do(old(State()), Schedule(version)) && Valid()
      ensures accepted <==>
              && version in world.activeVersions && version !in world.withdrawn
              && old(IsPublished(world, version)) && !old(IsAdopted(world, version))
      ensures world == if accepted then old(world).(adoptions := old(world).adoptions + [Adoption(version, Scheduled)])
                       else old(world)
      ensures accepted ==> IsAdopted(world, version)
    {
      accepted := Adoptable(world, version) && !IsAdopted(world, version);
      if accepted {
        world := world.(adoptions := world.adoptions + [Adoption(version, Scheduled)]);
        assert world.adoptions[|world.adoptions| - 1] == Adoption(version, Scheduled);
      }
    }

    method ActivateAdoption(adoption: nat) returns (accepted: bool)
      requires Valid() && adoption < |world.adoptions|
      modifies `world
      ensures State() == Do(old(State()), Activate(adoption)) && Valid()
      ensures var version := old(world).adoptions[adoption].version;
              accepted <==>
              && version in world.activeVersions && version !in world.withdrawn && old(IsPublished(world, version))
              && (old(world).adoptions[adoption].status != Ended || !old(IsAdopted(world, version)))
      ensures accepted ==>
                world == old(world).(adoptions := old(world).adoptions[adoption :=
                                                    old(world).adoptions[adoption].(status := Active)])
      ensures !accepted ==> world == old(world)
    {
      var a := world.adoptions[adoption];
      accepted := Adoptable(world, a.version) && (a.status != Ended || !IsAdopted(world, a.version));
      if accepted {
        world := world.(adoptions := world.adoptions[adoption := a.(status := Active)]);
      }
    }

    method MarkWithdrawn(version: nat)
      requires Valid()
      modifies `world
      ensures State() == Do(old(State()), Withdraw(version)) && Valid()
      ensures world == old(world).(withdrawn := old(world).withdrawn + {version})
    {
      world := world.(withdrawn := world.withdrawn + {version});
    }
  }
}
