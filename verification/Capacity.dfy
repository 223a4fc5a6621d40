/**
  The build slots as a protocol: any number of builds, their launchers, runtime clients and
  containers, interleaved step by step with crashes, stops and timeouts. A slot is given back only
  when nothing of the job can still be running.
*/
module Capacity {
  import opened Prelude

  // ---------- The shared count ----------

  /** `fetch_sub` on a 32-bit atomic: taking one from zero wraps around. */
  function Dropped(inUse: nat): nat {
    if inUse == 0 then U32_LIMIT - 1 else inUse - 1
  }

  class BuildSlots {
    const limit: nat
    var inUse: nat

    ghost predicate Valid() reads this {
      0 < limit < U32_LIMIT && inUse < U32_LIMIT
    }

    constructor (limit: nat)
      requires 0 < limit < U32_LIMIT
      ensures Valid() && this.limit == limit && inUse == 0
    {
      this.limit, inUse := limit, 0;
    }

    /** Only a positive limit makes slots. */
    static method New(limit: u32) returns (r: Option<BuildSlots>)
      ensures r.None? <==> limit == 0
      ensures r.Some? ==> fresh(r.value) && r.value.Valid() && r.value.limit == limit && r.value.inUse == 0
    {
      if limit == 0 { return None; }
      var slots := new BuildSlots(limit);
      r := Some(slots);
    }

    method TryTake() returns (taken: bool)
      requires Valid()
      modifies this`inUse
      ensures Valid() && taken == (old(inUse) < limit)
      ensures inUse == if taken then old(inUse) + 1 else old(inUse)
    {
      taken := inUse < limit;
      if taken { inUse := inUse + 1; }
    }

    method Drop()
      requires Valid()
      modifies this`inUse
      ensures Valid() && inUse == Dropped(old(inUse))
    {
      inUse := Dropped(inUse);
    }

    /** `saturating_sub`: never negative, whatever the count. */
    method Available() returns (free: nat)
      requires Valid()
      ensures inUse <= limit ==> free + inUse == limit
      ensures limit < inUse ==> free == 0
    {
      free := if inUse <= limit then limit - inUse else 0;
    }
  }

  // ---------- One job ----------

  /** Where `build` is: `Waiting` inside the worker call, `Kept` once it has forgotten its slot. */
  datatype Builder = Idle | Busy | Local | Waiting | Done | Kept

  /**
    Where the launcher process is. `Cleared` has looked for a stop and not yet spawned its client;
    `Framed` has written its frame, `Gone` ended without one.
  */
  datatype Launcher =
    | Absent | Checking | Starting | Cleared | Running | Removing | Probing | Confirmed | Framed | Gone

  /** `client` is the runtime client in its own session; `started` records that there ever was one. */
  datatype Job = Job(builder: Builder, launcher: Launcher, client: bool, container: bool, stop: bool, started: bool)

  const NO_JOB := Job(Idle, Absent, false, false, false, false)

  datatype Act =
    // build and worker::build
    | Ask(remote: bool) | LocalEnds | Decline | Spawn | Receive | GiveUp
    // the launcher
    | RefuseJob | Accept | LookForStop | Popen | PopenFails | Collect | Kill
    | Remove(works: bool) | Probe(answers: bool) | Write | Crash
    // signals, the runtime client and the container
    | Stop | Appear | ClientExits | Vanish

  /** One step of one job; a step that is not possible now does nothing. `free`: a slot was free. */
  function JobNext(j: Job, act: Act, free: bool): Job {
    match act
    case Ask(remote) =>
      if !j.builder.Idle? then j
      else if !free then j.(builder := Busy)
      else j.(builder := if remote then Waiting else Local)
    case LocalEnds => if j.builder.Local? then j.(builder := Done) else j
    case Decline => if j.builder.Waiting? && j.launcher.Absent? then j.(builder := Done) else j
    case Spawn => if j.builder.Waiting? && j.launcher.Absent? then j.(launcher := Checking) else j
    case Receive => if j.builder.Waiting? && j.launcher.Framed? then j.(builder := Done) else j
    case GiveUp => if j.builder.Waiting? && !j.launcher.Absent? then j.(builder := Kept) else j
    case _ => if j.launcher.Absent? then j else LauncherNext(j, act)
  }

  function LauncherNext(j: Job, act: Act): Job {
    match act
    case RefuseJob => if j.launcher.Checking? then j.(launcher := Confirmed) else j
    case Accept => if j.launcher.Checking? then j.(launcher := if j.stop then Confirmed else Starting) else j
    case LookForStop => if j.launcher.Starting? then j.(launcher := if j.stop then Removing else Cleared) else j
    case Popen => if j.launcher.Cleared? then j.(launcher := Running, client := true, started := true) else j
    case PopenFails => if j.launcher.Cleared? then j.(launcher := Removing) else j
    case Collect => if j.launcher.Running? && !j.client then j.(launcher := Removing) else j
    case Kill => if j.launcher.Running? then j.(launcher := Removing, client := false) else j
    case Remove(works) =>
      if j.launcher.Removing? then j.(launcher := Probing, container := j.container && !works) else j
    case Probe(answers) =>
      if j.launcher.Probing? then j.(launcher := if answers && !j.container then Confirmed else Gone) else j
    case Write => if j.launcher.Confirmed? then j.(launcher := Framed) else j
    case Crash => if j.launcher.Framed? then j else j.(launcher := Gone)
    case Stop => j.(stop := true)
    case Appear => if j.client then j.(container := true) else j
    case ClientExits => j.(client := false)
    case Vanish => j.(container := false)
    case _ => j
  }

  /** The steps in which a slot guard goes out of scope. */
  predicate Drops(j: Job, act: Act) {
    match act
    case LocalEnds => j.builder.Local?
    case Decline => j.builder.Waiting? && j.launcher.Absent?
    case Receive => j.builder.Waiting? && j.launcher.Framed?
    case _ => false
  }

  predicate Asks(j: Job, act: Act) { act.Ask? && j.builder.Idle? }

  /** A build that holds a slot, or whose slot was deliberately never given back. */
  predicate Charge(j: Job) { j.builder.Local? || j.builder.Waiting? || j.builder.Kept? }

  /** Something of the job may still be running on the machine. */
  predicate Alive(j: Job) { j.client || j.container }

  /** The launcher is there and has not spawned its client yet. */
  predicate BeforeClient(j: Job) { j.launcher.Checking? || j.launcher.Starting? || j.launcher.Cleared? }

  ghost predicate JobOk(j: Job) {
    && (j.client ==> j.launcher.Running? || j.launcher.Gone?)
    && (Alive(j) ==> j.started)
    && (j.started ==> !j.launcher.Absent? && !BeforeClient(j))
    && (j.launcher.Confirmed? || j.launcher.Framed? ==> !Alive(j))
    && (!j.launcher.Absent? ==> j.builder.Waiting? || j.builder.Kept? || j.builder.Done?)
    && (j.builder.Done? && !j.launcher.Absent? ==> j.launcher.Framed?)
    && (j.builder.Kept? ==> !j.launcher.Absent?)
  }

  lemma JobKeeps(j: Job, act: Act, free: bool)
    requires JobOk(j)
    ensures JobOk(JobNext(j, act, free))
    ensures Charge(JobNext(j, act, free)) <==> (Charge(j) && !Drops(j, act)) || (Asks(j, act) && free)
    ensures Drops(j, act) ==> Charge(j)
    ensures Alive(j) ==> Charge(j)
  {}

  // ---------- All jobs ----------

  datatype State = State(limit: nat, inUse: nat, jobs: map<nat, Job>)

  datatype Step = Step(id: nat, act: Act)

  function Of(jobs: map<nat, Job>, id: nat): Job { if id in jobs then jobs[id] else NO_JOB }

  function Initial(limit: nat): State { State(limit, 0, map[]) }

  function Next(s: State, step: Step): State {
    var j := Of(s.jobs, step.id);
    var free := Grants(s, step);
    State(s.limit, CountAfter(s.inUse, free, Drops(j, step.act)), s.jobs[step.id := JobNext(j, step.act, free)])
  }

  /** A run: the steps of all jobs in the order in which they happened. */
  function After(s: State, run: seq<Step>): State
    decreases |run|
  {
    if run == [] then s else Next(After(s, run[..|run| - 1]), run[|run| - 1])
  }

  ghost function Where(s: State, p: Job -> bool): set<nat> {
    set id | id in s.jobs && p(s.jobs[id])
  }

  ghost predicate StateOk(s: State) {
    && s.inUse == |Where(s, Charge)| <= s.limit
    && forall id | id in s.jobs :: JobOk(s.jobs[id])
  }

  predicate Grants(s: State, step: Step) {
    Asks(Of(s.jobs, step.id), step.act) && s.inUse < s.limit
  }

  lemma WhereUpdate(s: State, id: nat, j: Job, inUse: nat, p: Job -> bool)
    ensures Where(State(s.limit, inUse, s.jobs[id := j]), p)
         == if p(j) then Where(s, p) + {id} else Where(s, p) - {id}
  {}

  function CountAfter(inUse: nat, takes: bool, drops: bool): nat {
    if takes then inUse + 1 else if drops then Dropped(inUse) else inUse
  }

  lemma OneMoreOrLess(ids: set<nat>, id: nat)
    ensures id !in ids ==> |ids + {id}| == |ids| + 1 && ids - {id} == ids
    ensures id in ids ==> |ids - {id}| == |ids| - 1 && ids + {id} == ids
  {
    if id in ids { assert ids == (ids - {id}) + {id}; }
  }

  /** Replacing one job keeps the count right, if the count follows what the job does with its slot. */
  lemma UpdateKeeps(s: State, id: nat, j: Job, takes: bool, drops: bool)
    requires StateOk(s) && JobOk(j)
    requires takes ==> !Charge(Of(s.jobs, id)) && s.inUse < s.limit
    requires drops ==> Charge(Of(s.jobs, id)) && !takes
    requires Charge(j) <==> (Charge(Of(s.jobs, id)) && !drops) || takes
    ensures drops ==> s.inUse > 0
    ensures StateOk(State(s.limit, CountAfter(s.inUse, takes, drops), s.jobs[id := j]))
  {
    var before, after := Where(s, Charge), State(s.limit, CountAfter(s.inUse, takes, drops), s.jobs[id := j]);
    WhereUpdate(s, id, j, after.inUse, Charge);
    ChargedIds(s, id);
    OneMoreOrLess(before, id);
    assert forall k | k in after.jobs :: after.jobs[k] == j || (k in s.jobs && after.jobs[k] == s.jobs[k]);
  }

  lemma ChargedIds(s: State, id: nat)
    ensures id in Where(s, Charge) <==> Charge(Of(s.jobs, id))
  {}

  lemma NextKeeps(s: State, step: Step)
    requires StateOk(s)
    ensures StateOk(Next(s, step))
    ensures Drops(Of(s.jobs, step.id), step.act) ==> s.inUse > 0
  {
    var j := Of(s.jobs, step.id);
    JobKeeps(j, step.act, Grants(s, step));
    UpdateKeeps(s, step.id, JobNext(j, step.act, Grants(s, step)), Grants(s, step), Drops(j, step.act));
  }

  /** The main invariant, over every interleaving: the count is exactly the held and kept slots. */
  lemma {:induction false} RunKeeps(limit: nat, run: seq<Step>)
    requires 0 < limit < U32_LIMIT
    ensures StateOk(After(Initial(limit), run))
    ensures After(Initial(limit), run).limit == limit
  {
    if run == [] {
      assert Where(Initial(limit), Charge) == {};
    } else {
      RunKeeps(limit, run[..|run| - 1]);
      NextKeeps(After(Initial(limit), run[..|run| - 1]), run[|run| - 1]);
    }
  }

  lemma SubsetCount(a: set<nat>, b: set<nat>)
    requires a <= b
    ensures |a| <= |b|
    ensures |a| == |b| ==> a == b
  {
    assert b == a + (b - a);
    assert a == b || |b - a| > 0;
  }

  /** In every interleaving, whatever may still be running is charged, so the limit bounds it. */
  lemma LiveWorkIsCharged(limit: nat, run: seq<Step>)
    requires 0 < limit < U32_LIMIT
    ensures var s := After(Initial(limit), run);
            && Where(s, Alive) <= Where(s, Charge)
            && |Where(s, Alive)| <= s.inUse == |Where(s, Charge)| <= limit
  {
    RunKeeps(limit, run);
    var s := After(Initial(limit), run);
    forall id | id in Where(s, Alive) ensures id in Where(s, Charge) {
      JobKeeps(s.jobs[id], Write, false);
    }
    SubsetCount(Where(s, Alive), Where(s, Charge));
  }

  /** No guard is ever dropped at a count of zero, so the count never wraps around. */
  lemma CountNeverWraps(limit: nat, run: seq<Step>, step: Step)
    requires 0 < limit < U32_LIMIT
    ensures var s := After(Initial(limit), run);
            Drops(Of(s.jobs, step.id), step.act) ==> 0 < s.inUse && Next(s, step).inUse == s.inUse - 1
  {
    RunKeeps(limit, run);
    NextKeeps(After(Initial(limit), run), step);
  }

  // ---------- What a frame, a returned build and a kept slot mean for ever after ----------

  /** The launcher has said the container is removed; or the build has returned its slot. */
  predicate Settled(j: Job) { j.launcher.Confirmed? || j.launcher.Framed? || j.builder.Done? || j.builder.Busy? }

  /** After a crash of a launcher that had confirmed removal, nothing runs either. */
  predicate Over(j: Job) { !Alive(j) && (Settled(j) || (j.launcher.Gone? && !j.client)) }

  lemma OverStays(j: Job, act: Act, free: bool)
    requires JobOk(j) && Over(j)
    ensures Over(JobNext(j, act, free))
  {}

  lemma {:induction false} StaysOver(s: State, run: seq<Step>, id: nat)
    requires StateOk(s) && Over(Of(s.jobs, id))
    ensures StateOk(After(s, run)) && Over(Of(After(s, run).jobs, id))
  {
    if run != [] {
      var earlier, step := After(s, run[..|run| - 1]), run[|run| - 1];
      StaysOver(s, run[..|run| - 1], id);
      NextKeeps(earlier, step);
      var j := Of(earlier.jobs, step.id);
      if step.id == id { OverStays(j, step.act, Grants(earlier, step)); }
    }
  }

  /**
    A confirmation is final: once a launcher has framed its job, or a build has given its slot
    back, no continuation of the run ever has a client or a container of that job.
  */
  lemma SettledIsFinal(limit: nat, run: seq<Step>, more: seq<Step>, id: nat)
    requires 0 < limit < U32_LIMIT
    requires Settled(Of(After(Initial(limit), run).jobs, id))
    ensures !Alive(Of(After(After(Initial(limit), run), more).jobs, id))
  {
    RunKeeps(limit, run);
    StaysOver(After(Initial(limit), run), more, id);
  }

  predicate IsKept(j: Job) { j.builder.Kept? }

  lemma KeptNext(j: Job, act: Act, free: bool)
    requires IsKept(j)
    ensures IsKept(JobNext(j, act, free))
  {}

  lemma {:induction false} KeptStays(s: State, run: seq<Step>)
    requires StateOk(s)
    ensures StateOk(After(s, run)) && After(s, run).limit == s.limit
    ensures Where(s, IsKept) <= Where(After(s, run), IsKept)
  {
    if run != [] {
      var earlier, step := After(s, run[..|run| - 1]), run[|run| - 1];
      KeptStays(s, run[..|run| - 1]);
      NextKeeps(earlier, step);
      var j := Of(earlier.jobs, step.id);
      if IsKept(j) { KeptNext(j, step.act, Grants(earlier, step)); }
      WhereUpdate(earlier, step.id, JobNext(j, step.act, Grants(earlier, step)), Next(earlier, step).inUse, IsKept);
    }
  }

  /** Kept slots are never given back; once all are kept, every later build is refused. */
  lemma AllKeptMeansBusy(limit: nat, run: seq<Step>, more: seq<Step>, id: nat, remote: bool)
    requires 0 < limit < U32_LIMIT
    requires |Where(After(Initial(limit), run), IsKept)| == limit
    requires Of(After(After(Initial(limit), run), more).jobs, id).builder.Idle?
    ensures var s := After(After(Initial(limit), run), more);
            && Where(s, Charge) == Where(After(Initial(limit), run), IsKept)
            && Of(Next(s, Step(id, Ask(remote))).jobs, id).builder.Busy?
  {
    RunKeeps(limit, run);
    var s := After(Initial(limit), run);
    KeptStays(s, more);
    var later := After(s, more);
    var kept := Where(s, IsKept);
    assert kept <= Where(later, Charge);
    SubsetCount(kept, Where(later, Charge));
  }

  /** A stop is recorded, no client was ever spawned, and the launcher is not about to spawn one. */
  predicate StoppedInTime(j: Job) { j.stop && !j.started && !j.launcher.Absent? && !j.launcher.Cleared? }

  lemma StoppedNext(j: Job, act: Act, free: bool)
    requires StoppedInTime(j)
    ensures StoppedInTime(JobNext(j, act, free))
  {}

  /** A stop recorded before the launcher looks for one prevents the client in every continuation. */
  lemma {:induction false} StopPreventsClient(s: State, run: seq<Step>, id: nat)
    requires StateOk(s) && StoppedInTime(Of(s.jobs, id))
    ensures StateOk(After(s, run)) && StoppedInTime(Of(After(s, run).jobs, id))
    ensures !Alive(Of(After(s, run).jobs, id))
  {
    if run != [] {
      var earlier, step := After(s, run[..|run| - 1]), run[|run| - 1];
      StopPreventsClient(s, run[..|run| - 1], id);
      NextKeeps(earlier, step);
      if step.id == id { StoppedNext(Of(earlier.jobs, id), step.act, Grants(earlier, step)); }
    }
  }

  lemma AfterOne(s: State, run: seq<Step>, step: Step)
    ensures After(s, run + [step]) == Next(After(s, run), step)
  {
    assert (run + [step])[..|run|] == run;
  }

  /** In this and every later state of any run, the job's client has never been spawned. */
  ghost predicate NeverStarts(s: State, id: nat) {
    forall more: seq<Step> :: !Of(After(s, more).jobs, id).started
  }

  /**
    Exactly which stops prevent the client: recording one now, before a client was spawned, keeps
    it from ever being spawned if and only if the launcher is not between its look and its spawn.
  */
  lemma StopIsInTime(s: State, id: nat)
    requires StateOk(s) && !Of(s.jobs, id).launcher.Absent? && !Of(s.jobs, id).started
    ensures NeverStarts(Next(s, Step(id, Stop)), id) <==> !Of(s.jobs, id).launcher.Cleared?
  {
    var stopped := Next(s, Step(id, Stop));
    NextKeeps(s, Step(id, Stop));
    if Of(s.jobs, id).launcher.Cleared? {
      AfterOne(stopped, [], Step(id, Popen));
      assert Of(After(stopped, [] + [Step(id, Popen)]).jobs, id).started;
    } else {
      forall more: seq<Step> ensures !Of(After(stopped, more).jobs, id).started {
        StopPreventsClient(stopped, more, id);
      }
    }
  }

  // ---------- Two runs of one remote build ----------

  /** One more step of a run whose only job is in state `before`. */
  lemma OneJobStep(run: seq<Step>, act: Act, before: Job)
    requires After(Initial(1), run) == State(1, 1, map[0 := before])
    requires before.builder.Waiting? && !before.launcher.Framed? && !act.Decline?
    ensures After(Initial(1), run + [Step(0, act)]) == State(1, 1, map[0 := JobNext(before, act, false)])
  {
    AfterOne(Initial(1), run, Step(0, act));
    var after := JobNext(before, act, false);
    assert map[0 := before][0 := after] == map[0 := after];
  }

  const CLEARED_JOB := Job(Waiting, Cleared, false, false, false, false)

  lemma AskedRun()
    ensures After(Initial(1), [Step(0, Ask(true))]) == State(1, 1, map[0 := CLEARED_JOB.(launcher := Absent)])
  {
    AfterOne(Initial(1), [], Step(0, Ask(true)));
    assert [] + [Step(0, Ask(true))] == [Step(0, Ask(true))];
  }

  /** A build asks, and its launcher gets as far as looking for a stop. */
  const CLEARED := [Step(0, Ask(true))] + [Step(0, Spawn)] + [Step(0, Accept)] + [Step(0, LookForStop)]

  lemma ClearedRun()
    ensures After(Initial(1), CLEARED) == State(1, 1, map[0 := CLEARED_JOB])
  {
    AskedRun();
    var asked := [Step(0, Ask(true))];
    OneJobStep(asked, Spawn, CLEARED_JOB.(launcher := Absent));
    OneJobStep(asked + [Step(0, Spawn)], Accept, CLEARED_JOB.(launcher := Checking));
    OneJobStep(asked + [Step(0, Spawn)] + [Step(0, Accept)], LookForStop, CLEARED_JOB.(launcher := Starting));
  }

  /** A stop that falls between the look and the spawn comes too late: the client starts anyway. */
  lemma StopInTheWindowIsLate()
    ensures var s := After(Initial(1), CLEARED + [Step(0, Stop)] + [Step(0, Popen)]);
            Of(s.jobs, 0).stop && Of(s.jobs, 0).client
  {
    ClearedRun();
    OneJobStep(CLEARED, Stop, CLEARED_JOB);
    OneJobStep(CLEARED + [Step(0, Stop)], Popen, CLEARED_JOB.(stop := true));
  }

  /** The run in which a launcher dies with its client still running, and the build gives up. */
  const ORPHANED := CLEARED + [Step(0, Popen)] + [Step(0, Crash)] + [Step(0, GiveUp)]

  lemma OrphanedRun()
    ensures After(Initial(1), ORPHANED) == State(1, 1, map[0 := Job(Kept, Gone, true, false, false, true)])
  {
    ClearedRun();
    OneJobStep(CLEARED, Popen, CLEARED_JOB);
    OneJobStep(CLEARED + [Step(0, Popen)], Crash, Job(Waiting, Running, true, false, false, true));
    OneJobStep(CLEARED + [Step(0, Popen)] + [Step(0, Crash)], GiveUp, Job(Waiting, Gone, true, false, false, true));
  }

  /** Why the slot is kept: a container can appear after its build gave up on a dead launcher. */
  lemma KeptSlotMayHideAContainer()
    ensures var s := After(Initial(1), ORPHANED + [Step(0, Appear)]);
            Of(s.jobs, 0).builder.Kept? && Of(s.jobs, 0).container && s.inUse == 1
  {
    OrphanedRun();
    AfterOne(Initial(1), ORPHANED, Step(0, Appear));
  }
}
