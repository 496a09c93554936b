/** The limiter behind hooks and detached `exec` jobs (src/jobs.rs).

    Any number of threads call `try_spawn` at once. They share one atomic counter, so a call is
    modelled as the atomic accesses it performs, and an execution as any interleaving of those
    accesses. Accesses a scheduler cannot pick in a state leave that state alone, so every
    sequence of steps denotes an execution. */
module JobSlots {

  const MAX_ONE_SHOT_JOBS: nat := 32

  /** `usize` is 64 bits wide; `fetch_sub` wraps around at this modulus. */
  const USIZE_MODULUS: nat := 0x1_0000_0000_0000_0000

  /** Where one call of `try_spawn`, and then the job it launched, has got to. */
  datatype Phase =
    | Starting                // about to load the counter
    | Loaded(current: nat)    // loaded, about to compare-exchange
    | Spawning                // slot acquired, thread not created yet
    | SpawnFailed             // the thread could not be created, slot not given back yet
    | Running                 // the job runs and `try_spawn` has returned true
    | Unwinding               // the job returned or panicked, its guard not dropped yet
    | Finished(launched: bool)

  /** One call with the number of times it took a slot and gave one back. */
  datatype Launch = Launch(phase: Phase, acquired: nat, released: nat)

  datatype Slots = Slots(inFlight: nat, launches: map<nat, Launch>)

  datatype Step =
    | Call(id: nat)
    | Load(id: nat)
    | Exchange(id: nat, spurious: bool)   // compare_exchange_weak may fail for no reason
    | Spawn(id: nat, created: bool)
    | GiveBack(id: nat)                   // fetch_sub on the spawn-failure path
    | JobEnds(id: nat, panicked: bool)
    | DropGuard(id: nat)                  // fetch_sub in the guard's drop

  const Initial := Slots(0, map[])

  function FetchSub(counter: nat): nat
    requires counter < USIZE_MODULUS
  {
    (counter + USIZE_MODULUS - 1) % USIZE_MODULUS
  }

  predicate At(s: Slots, id: nat, phase: Phase) {
    id in s.launches && s.launches[id].phase == phase
  }

  function Move(s: Slots, id: nat, phase: Phase): Slots
    requires id in s.launches
  {
    s.(launches := s.launches[id := s.launches[id].(phase := phase)])
  }

  function Acquire(s: Slots, id: nat, counter: nat): Slots
    requires id in s.launches
  {
    var launch := s.launches[id];
    Slots(counter, s.launches[id := Launch(Spawning, launch.acquired + 1, launch.released)])
  }

  function Release(s: Slots, id: nat, launched: bool): Slots
    requires id in s.launches
  {
    var launch := s.launches[id];
    Slots(FetchSub(s.inFlight % USIZE_MODULUS),
          s.launches[id := Launch(Finished(launched), launch.acquired, launch.released + 1)])
  }

  function Apply(s: Slots, step: Step): Slots {
    match step
    case Call(id) =>
      if id in s.launches then s else s.(launches := s.launches[id := Launch(Starting, 0, 0)])
    case Load(id) =>
      if !At(s, id, Starting) then s
      else if s.inFlight >= MAX_ONE_SHOT_JOBS then Move(s, id, Finished(false))
      else Move(s, id, Loaded(s.inFlight))
    case Exchange(id, spurious) =>
      if id !in s.launches || !s.launches[id].phase.Loaded? then s
      else if !spurious && s.inFlight == s.launches[id].phase.current then
        Acquire(s, id, s.launches[id].phase.current + 1)
      else Move(s, id, Starting)
    case Spawn(id, created) =>
      if At(s, id, Spawning) then Move(s, id, if created then Running else SpawnFailed) else s
    case GiveBack(id) =>
      if At(s, id, SpawnFailed) then Release(s, id, false) else s
    case JobEnds(id, _) =>
      if At(s, id, Running) then Move(s, id, Unwinding) else s
    case DropGuard(id) =>
      if At(s, id, Unwinding) then Release(s, id, true) else s
  }

  /** The state an interleaving reaches from the program's start. */
  function Run(steps: seq<Step>): Slots {
    if steps == [] then Initial else Apply(Run(steps[..|steps| - 1]), steps[|steps| - 1])
  }

  predicate Holds(launch: Launch) {
    launch.phase in {Spawning, SpawnFailed, Running, Unwinding}
  }

  ghost function Holders(launches: map<nat, Launch>): set<nat> {
    set id | id in launches && Holds(launches[id])
  }

  /** A call has taken a slot exactly when it is past the exchange, and gives it back once. */
  predicate Balanced(launch: Launch) {
    match launch.phase
    case Starting => launch.acquired == launch.released == 0
    case Loaded(current) => launch.acquired == launch.released == 0 && current < MAX_ONE_SHOT_JOBS
    case Finished(launched) => launch.acquired == launch.released <= 1 && (launched ==> launch.released == 1)
    case _ => launch.acquired == 1 && launch.released == 0
  }

  ghost predicate Inv(s: Slots) {
    && s.inFlight == |Holders(s.launches)| <= MAX_ONE_SHOT_JOBS
    && forall id | id in s.launches :: Balanced(s.launches[id])
  }

  /** Changing one launch changes the set of holders by at most that launch. */
  lemma HoldersAfter(launches: map<nat, Launch>, id: nat, launch: Launch)
    ensures Holders(launches[id := launch]) ==
            if Holds(launch) then Holders(launches) + {id} else Holders(launches) - {id}
    ensures |Holders(launches[id := launch])| ==
            |Holders(launches) - {id}| + (if Holds(launch) then 1 else 0)
    ensures |Holders(launches)| ==
            |Holders(launches) - {id}| + (if id in launches && Holds(launches[id]) then 1 else 0)
  {
    var held := Holders(launches);
    if id in held {
      assert held == held - {id} + {id};
    } else {
      assert held == held - {id};
    }
    assert held + {id} == held - {id} + {id};
  }

  /** The counter stays right when it moves as the changed launch's holding does. */
  lemma ChangeKeepsInv(s: Slots, id: nat, counter: nat, launch: Launch)
    requires Inv(s) && Balanced(launch) && counter <= MAX_ONE_SHOT_JOBS
    requires counter + (if id in s.launches && Holds(s.launches[id]) then 1 else 0)
             == s.inFlight + (if Holds(launch) then 1 else 0)
    ensures Inv(Slots(counter, s.launches[id := launch]))
  {
    HoldersAfter(s.launches, id, launch);
  }

  lemma ReleaseKeepsInv(s: Slots, id: nat, launched: bool)
    requires Inv(s) && id in s.launches && Holds(s.launches[id])
    ensures Inv(Release(s, id, launched))
  {
    HoldersAfter(s.launches, id, s.launches[id]);
    assert 1 <= s.inFlight <= MAX_ONE_SHOT_JOBS;
    assert FetchSub(s.inFlight % USIZE_MODULUS) == s.inFlight - 1;
    ChangeKeepsInv(s, id, s.inFlight - 1, Launch(Finished(launched), 1, 1));
  }

  lemma StepKeepsInv(s: Slots, step: Step)
    requires Inv(s)
    ensures Inv(Apply(s, step))
  {
    var after := Apply(s, step);
    if after != s {
      match step
      case GiveBack(id) => ReleaseKeepsInv(s, id, false);
      case DropGuard(id) => ReleaseKeepsInv(s, id, true);
      case _ => ChangeKeepsInv(s, step.id, after.inFlight, after.launches[step.id]);
    }
  }

  lemma {:induction false} RunKeepsInv(steps: seq<Step>)
    ensures Inv(Run(steps))
  {
    if steps == [] {
      assert Holders(Initial.launches) == {};
    } else {
      RunKeepsInv(steps[..|steps| - 1]);
      StepKeepsInv(Run(steps[..|steps| - 1]), steps[|steps| - 1]);
    }
  }

  /** In every interleaving the counter is the number of held slots, never more than the cap and
      never wrapped around, and no call gives back more than the one slot it took. */
  lemma CounterIsHeldSlots(steps: seq<Step>)
    ensures var s := Run(steps);
            && s.inFlight == |Holders(s.launches)| <= MAX_ONE_SHOT_JOBS
            && forall id | id in s.launches ::
                 var launch := s.launches[id];
                 && launch.released <= launch.acquired <= 1
                 && (Holds(launch) <==> launch.acquired == 1 && launch.released == 0)
                 && (launch.phase.Finished? ==> launch.acquired == launch.released)
  {
    RunKeepsInv(steps);
  }

  /** Once every call and every job has finished, no slot is lost: the counter is back to zero. */
  lemma NoSlotIsLost(steps: seq<Step>)
    requires forall id | id in Run(steps).launches :: Run(steps).launches[id].phase.Finished?
    ensures Run(steps).inFlight == 0
  {
    RunKeepsInv(steps);
    assert Holders(Run(steps).launches) == {};
  }

  /** A call is turned away at the load only while exactly the cap's number of slots are held. */
  lemma RejectedOnlyWhenFull(steps: seq<Step>, id: nat)
    requires At(Run(steps), id, Starting)
    ensures At(Apply(Run(steps), Load(id)), id, Finished(false)) <==>
            |Holders(Run(steps).launches)| == MAX_ONE_SHOT_JOBS
  {
    RunKeepsInv(steps);
  }

  /** A successful exchange, however stale the value it compares with, took a slot that was free:
      the holders grow by exactly this call and still fit under the cap. */
  lemma ExchangeTakesAFreeSlot(steps: seq<Step>, id: nat, spurious: bool)
    requires id in Run(steps).launches && Run(steps).launches[id].phase.Loaded?
    requires At(Apply(Run(steps), Exchange(id, spurious)), id, Spawning)
    ensures id !in Holders(Run(steps).launches)
    ensures Holders(Apply(Run(steps), Exchange(id, spurious)).launches) == Holders(Run(steps).launches) + {id}
    ensures |Holders(Run(steps).launches)| < MAX_ONE_SHOT_JOBS
  {
    RunKeepsInv(steps);
    HoldersAfter(Run(steps).launches, id, Apply(Run(steps), Exchange(id, spurious)).launches[id]);
  }

  /** The step at `k` is the one that created the thread of call `id`, or failed to. */
  predicate SpawnedAt(steps: seq<Step>, k: int, id: nat, created: bool) {
    0 <= k < |steps| && steps[k] == Spawn(id, created) && At(Run(steps[..k]), id, Spawning)
  }

  lemma SpawnedEarlier(steps: seq<Step>, id: nat, created: bool)
    requires steps != []
    ensures var front := steps[..|steps| - 1];
            (exists k :: SpawnedAt(steps, k, id, created)) <==>
            || (exists k :: SpawnedAt(front, k, id, created))
            || SpawnedAt(steps, |steps| - 1, id, created)
  {
    var front := steps[..|steps| - 1];
    forall k | 0 <= k < |front|
      ensures SpawnedAt(steps, k, id, created) <==> SpawnedAt(front, k, id, created)
    {
      assert steps[..k] == front[..k];
    }
  }

  lemma {:induction false} NotSpawnedBefore(steps: seq<Step>, id: nat)
    requires id !in Run(steps).launches
    ensures forall k, created :: !SpawnedAt(steps, k, id, created)
  {
    if steps != [] {
      NotSpawnedBefore(steps[..|steps| - 1], id);
      SpawnedEarlier(steps, id, true);
      SpawnedEarlier(steps, id, false);
    }
  }

  /** A call reports a launched job exactly when its thread was created: its job runs, unwinds or has
      finished as launched just then, and a call that took a slot without it ends as not launched. */
  lemma {:induction false} LaunchedExactlyWhenCreated(steps: seq<Step>, id: nat)
    requires id in Run(steps).launches
    ensures Run(steps).launches[id].phase in {Running, Unwinding, Finished(true)} <==>
            exists k :: SpawnedAt(steps, k, id, true)
    ensures Run(steps).launches[id].phase == SpawnFailed
            || (Run(steps).launches[id].phase == Finished(false) && Run(steps).launches[id].acquired == 1) <==>
            exists k :: SpawnedAt(steps, k, id, false)
  {
    var front := steps[..|steps| - 1];
    RunKeepsInv(front);
    SpawnedEarlier(steps, id, true);
    SpawnedEarlier(steps, id, false);
    if id in Run(front).launches {
      LaunchedExactlyWhenCreated(front, id);
    } else {
      NotSpawnedBefore(front, id);
    }
  }

  lemma RunStep(steps: seq<Step>, step: Step)
    ensures Run(steps + [step]) == Apply(Run(steps), step)
  {
    assert (steps + [step])[..|steps|] == steps;
  }

  /** A call that meets fewer jobs than the cap, and no other call in between, gets its job running
      in a slot of its own. */
  lemma UndisturbedCallLaunches(steps: seq<Step>, id: nat)
    requires id !in Run(steps).launches && |Holders(Run(steps).launches)| < MAX_ONE_SHOT_JOBS
    ensures var after := Run(steps + [Call(id)] + [Load(id)] + [Exchange(id, false)] + [Spawn(id, true)]);
            && At(after, id, Running)
            && Holders(after.launches) == Holders(Run(steps).launches) + {id}
            && after.inFlight == Run(steps).inFlight + 1
  {
    RunKeepsInv(steps);
    RunStep(steps, Call(id));
    RunStep(steps + [Call(id)], Load(id));
    RunStep(steps + [Call(id)] + [Load(id)], Exchange(id, false));
    RunStep(steps + [Call(id)] + [Load(id)] + [Exchange(id, false)], Spawn(id, true));
  }

  /** A failed spawn, and the end of a job, followed by the step that gives the slot back. */
  lemma GivesBack(s: Slots, id: nat, leave: Step, give: Step, launched: bool)
    requires Inv(s)
    requires if launched then At(s, id, Running) && leave.JobEnds? && give == DropGuard(id)
             else At(s, id, Spawning) && leave == Spawn(id, false) && give == GiveBack(id)
    requires leave.id == id
    ensures var after := Apply(Apply(s, leave), give);
            At(after, id, Finished(launched)) && after.inFlight == s.inFlight - 1
  {
    HoldersAfter(s.launches, id, s.launches[id]);
  }

  /** However a taken slot is left - the thread is not created, the job returns, the job panics - the
      two steps that leave it give exactly this call's slot back. */
  lemma EveryWayGivesBack(steps: seq<Step>, id: nat, panicked: bool)
    ensures At(Run(steps), id, Spawning) ==>
              var after := Run(steps + [Spawn(id, false)] + [GiveBack(id)]);
              At(after, id, Finished(false)) && after.inFlight == Run(steps).inFlight - 1
    ensures At(Run(steps), id, Running) ==>
              var after := Run(steps + [JobEnds(id, panicked)] + [DropGuard(id)]);
              At(after, id, Finished(true)) && after.inFlight == Run(steps).inFlight - 1
  {
    RunKeepsInv(steps);
    if At(Run(steps), id, Spawning) {
      GivesBack(Run(steps), id, Spawn(id, false), GiveBack(id), false);
      RunStep(steps, Spawn(id, false));
      RunStep(steps + [Spawn(id, false)], GiveBack(id));
    }
    if At(Run(steps), id, Running) {
      GivesBack(Run(steps), id, JobEnds(id, panicked), DropGuard(id), true);
      RunStep(steps, JobEnds(id, panicked));
      RunStep(steps + [JobEnds(id, panicked)], DropGuard(id));
    }
  }
}
