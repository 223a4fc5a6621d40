/**
  The worker launcher and the build that waits for it, as programs taking the steps of the capacity
  protocol. Between any two of their own steps, everything else may take as many as it likes.
*/
module Launcher {
  import opened Prelude
  import opened Capacity

  const MAX_OUTPUT := 4 * 1024 * 1024
  const READ_SIZE := 65536

  /** Steps only the launcher program itself takes (a crash ends it, so it is among them). */
  predicate LauncherAct(act: Act) {
    act.RefuseJob? || act.Accept? || act.LookForStop? || act.Popen? || act.PopenFails? || act.Collect? ||
    act.Kill? || act.Remove? || act.Probe? || act.Write? || act.Crash?
  }

  predicate BuilderAct(act: Act) {
    act.Ask? || act.LocalEnds? || act.Decline? || act.Spawn? || act.Receive? || act.GiveUp?
  }

  ghost predicate NotByLauncher(id: nat, steps: seq<Step>) {
    forall step <- steps :: step.id == id ==> !LauncherAct(step.act)
  }

  ghost predicate NotByBuilder(id: nat, steps: seq<Step>) {
    forall step <- steps :: step.id == id ==> !BuilderAct(step.act)
  }

  /** What the rest of the world can do to a launcher's job: signal it, end its client, move its container. */
  ghost predicate Undisturbed(before: Job, after: Job) {
    && after.launcher == before.launcher && after.started == before.started
    && (Alive(after) ==> Alive(before))
  }

  lemma OneUndisturbed(j: Job, act: Act, free: bool)
    requires !j.launcher.Absent? && !LauncherAct(act)
    ensures Undisturbed(j, JobNext(j, act, free))
    ensures JobNext(j, act, free).stop <==> j.stop || act == Stop
    ensures JobNext(j, act, free).client <==> j.client && act != ClientExits
    ensures JobNext(j, act, free).container <==> (j.container && act != Vanish) || (j.client && act == Appear)
  {}

  lemma OneUnbuilt(j: Job, act: Act, free: bool)
    requires !BuilderAct(act)
    ensures JobNext(j, act, free).builder == j.builder
    ensures j.launcher.Absent? <==> JobNext(j, act, free).launcher.Absent?
  {}

  // ---------- The world the programs act on ----------

  class World {
    const slots: BuildSlots
    var jobs: map<nat, Job>
    ghost var run: seq<Step>

    ghost function View(): State reads this, slots { State(slots.limit, slots.inUse, jobs) }

    /** The state in which the last step was taken. */
    ghost function BeforeLast(): State reads this, slots {
      if run == [] then View() else After(Initial(slots.limit), run[..|run| - 1])
    }

    ghost predicate Valid() reads this, slots {
      slots.Valid() && View() == After(Initial(slots.limit), run)
    }

    function At(id: nat): Job reads this { Of(jobs, id) }

    constructor (slots: BuildSlots)
      requires slots.Valid() && slots.inUse == 0
      ensures Valid() && jobs == map[] && this.slots == slots
    {
      this.slots, jobs, run := slots, map[], [];
    }

    lemma Sound()
      requires Valid()
      ensures StateOk(View())
    {
      RunKeeps(slots.limit, run);
    }

    /** Conservation: whatever happened so far, the free slots and the charged ones make up the limit. */
    method Free() returns (free: nat)
      requires Valid()
      ensures free + |Where(View(), Charge)| == slots.limit
    {
      Sound();
      free := slots.Available();
    }

    /** One step: taking and dropping the slot go through the shared count. */
    method Do(step: Step)
      requires Valid()
      modifies this, slots
      ensures Valid() && run == old(run) + [step]
      ensures slots.inUse == CountAfter(old(slots.inUse), old(Grants(View(), step)), old(Drops(At(step.id), step.act)))
      ensures At(step.id) == JobNext(old(At(step.id)), step.act, Grants(old(View()), step))
      ensures forall id :: id != step.id ==> At(id) == old(At(id))
    {
      var job, free := At(step.id), false;
      if Asks(job, step.act) {
        free := slots.TryTake();
      } else if Drops(job, step.act) {
        slots.Drop();
      }
      jobs := jobs[step.id := JobNext(job, step.act, free)];
      AfterOne(Initial(slots.limit), run, step);
      run := run + [step];
    }

    /** Everything else that happens meanwhile. */
    method Meanwhile(steps: seq<Step>, id: nat)
      requires Valid()
      modifies this, slots
      ensures Valid() && run == old(run) + steps
      ensures NotByLauncher(id, steps) && !old(At(id)).launcher.Absent? ==> Undisturbed(old(At(id)), At(id))
      ensures NotByLauncher(id, steps) && !old(At(id)).launcher.Absent? ==>
                && (At(id).stop <==> old(At(id)).stop || Step(id, Stop) in steps)
                && (At(id).client <==> old(At(id)).client && Step(id, ClientExits) !in steps)
      ensures NotByBuilder(id, steps) ==> At(id).builder == old(At(id)).builder
      ensures NotByBuilder(id, steps) ==> (At(id).launcher.Absent? <==> old(At(id)).launcher.Absent?)
    {
      var n := 0;
      while n < |steps|
        invariant 0 <= n <= |steps|
        invariant Valid() && run == old(run) + steps[..n]
        invariant NotByLauncher(id, steps) && !old(At(id)).launcher.Absent? ==> Undisturbed(old(At(id)), At(id))
        invariant NotByLauncher(id, steps) && !old(At(id)).launcher.Absent? ==>
                    && (At(id).stop <==> old(At(id)).stop || Step(id, Stop) in steps[..n])
                    && (At(id).client <==> old(At(id)).client && Step(id, ClientExits) !in steps[..n])
        invariant NotByBuilder(id, steps) ==> At(id).builder == old(At(id)).builder
        invariant NotByBuilder(id, steps) ==> (At(id).launcher.Absent? <==> old(At(id)).launcher.Absent?)
      {
        ghost var job, free := At(id), Grants(View(), steps[n]);
        assert steps[n] in steps;
        Do(steps[n]);
        if steps[n].id == id {
          if NotByLauncher(id, steps) && !job.launcher.Absent? { OneUndisturbed(job, steps[n].act, free); }
          if NotByBuilder(id, steps) { OneUnbuilt(job, steps[n].act, free); }
        }
        n := n + 1;
      }
      assert steps[..n] == steps;
    }
  }

  // ---------- The launcher ----------

  /** One turn of the poll loop: what happened before it, whether time is up, how much can be read. */
  datatype Poll = Poll(others: seq<Step>, expired: bool, ready: nat, closed: bool)

  /** The runtime client's whole standard output and its exit status. */
  datatype Client = Client(output: seq<byte>, status: int)

  ghost predicate PollsBy(id: nat, polls: seq<Poll>) {
    forall poll <- polls :: NotByLauncher(id, poll.others)
  }

  /** Nothing in this turn ends the loop early. */
  predicate Quiet(id: nat, poll: Poll) { !poll.expired && Step(id, Stop) !in poll.others }

  /** How much of an output of `length` bytes the first `n` turns read. */
  function Got(polls: seq<Poll>, n: nat, length: nat): (got: nat)
    requires n <= |polls|
    ensures got <= length
  {
    if n == 0 then 0
    else
      var before := Got(polls, n - 1, length);
      before + Least(65536, Least(polls[n - 1].ready, length - before))
  }

  /** Turn `k` finds the output closed after all of it was read, and no turn so far ended the loop. */
  ghost predicate SeesEnd(id: nat, polls: seq<Poll>, length: nat, k: nat) {
    && k < |polls| && polls[k].closed && Got(polls, k, length) == length
    && forall i :: 0 <= i <= k ==> Quiet(id, polls[i])
  }

  /** `k` is the first such turn. */
  ghost predicate EndsAt(id: nat, polls: seq<Poll>, length: nat, k: nat) {
    SeesEnd(id, polls, length, k) && forall j :: 0 <= j < k ==> !SeesEnd(id, polls, length, j)
  }

  /** The client exits during one of the turns up to `k`. */
  ghost predicate ExitsBy(id: nat, polls: seq<Poll>, k: int) {
    exists i :: 0 <= i <= k && i < |polls| && Step(id, ClientExits) in polls[i].others
  }

  /** Where the loop stands after `n` turns without an end. */
  ghost predicate Polled(id: nat, polls: seq<Poll>, output: seq<byte>, limit: nat, n: nat, result: seq<byte>) {
    && n <= |polls| && result <= output && |result| <= limit
    && (|output| <= limit ==> |result| == Got(polls, n, |output|))
    && (forall i :: 0 <= i < n ==> Quiet(id, polls[i]))
    && (|output| <= limit ==> forall j :: 0 <= j < n ==> !SeesEnd(id, polls, |output|, j))
  }

  /** How much one turn of the loop reads. */
  function ReadNow(poll: Poll, result: seq<byte>, output: seq<byte>, limit: nat): (size: nat)
    requires |result| <= limit && |result| <= |output|
    ensures size <= READ_SIZE && |result| + size <= limit + 1 && |result| + size <= |output|
  {
    Least(Least(READ_SIZE, limit + 1 - |result|), Least(poll.ready, |output| - |result|))
  }

  lemma PollsOn(id: nat, polls: seq<Poll>, output: seq<byte>, limit: nat, n: nat, result: seq<byte>, more: seq<byte>)
    requires Polled(id, polls, output, limit, n, result) && n < |polls| && Quiet(id, polls[n])
    requires more == output[..|result| + ReadNow(polls[n], result, output, limit)] && |more| <= limit
    requires !(polls[n].closed && result == output)
    ensures Polled(id, polls, output, limit, n + 1, more)
  {
    if |output| <= limit {
      assert Got(polls, n + 1, |output|) == |more|;
      assert |result| == |output| ==> result == output;
    }
  }

  lemma NoEnd(id: nat, polls: seq<Poll>, output: seq<byte>, limit: nat, n: nat, result: seq<byte>)
    requires Polled(id, polls, output, limit, n, result) && (n == |polls| || !Quiet(id, polls[n])) && |output| <= limit
    ensures forall k :: !SeesEnd(id, polls, |output|, k)
  {}

  /** What one turn comes to: the output is at its end, the client is killed, or so much has been read. */
  datatype Turn = Ended | Killed | Holds(result: seq<byte>)

  method TakeTurn(w: World, id: nat, poll: Poll, result: seq<byte>, output: seq<byte>, limit: nat)
    returns (turn: Turn)
    requires w.Valid() && w.At(id).launcher.Running? && NotByLauncher(id, poll.others)
    requires result <= output && |result| <= limit
    modifies w, w.slots
    ensures w.Valid() && w.At(id).started == old(w.At(id).started)
    ensures turn.Killed? ==> w.At(id).launcher.Removing? && !w.At(id).client
    ensures !turn.Killed? ==>
              && w.At(id).launcher.Running? && !w.At(id).stop
              && (w.At(id).client <==> old(w.At(id).client) && Step(id, ClientExits) !in poll.others)
    ensures turn
            == if old(w.At(id).stop) || !Quiet(id, poll) then Killed
               else if poll.closed && result == output then Ended
               else if |result| + ReadNow(poll, result, output, limit) > limit then Killed
               else Holds(output[..|result| + ReadNow(poll, result, output, limit)])
  {
    w.Meanwhile(poll.others, id);
    if w.At(id).stop || poll.expired {
      w.Do(Step(id, Kill));
      return Killed;
    }
    if poll.closed && result == output { return Ended; }
    var more := output[..|result| + ReadNow(poll, result, output, limit)];
    if |more| > limit {
      w.Do(Step(id, Kill));
      return Killed;
    }
    turn := Holds(more);
  }

  /** The loop can end well: some turn finds the output closed after all of it was read. */
  ghost predicate CanDrain(id: nat, polls: seq<Poll>, output: seq<byte>, limit: nat) {
    |output| <= limit && exists k: nat :: SeesEnd(id, polls, |output|, k)
  }

  lemma KilledHere(id: nat, polls: seq<Poll>, output: seq<byte>, limit: nat, n: nat, result: seq<byte>)
    requires Polled(id, polls, output, limit, n, result)
    requires n == |polls| || !Quiet(id, polls[n]) || |result| + ReadNow(polls[n], result, output, limit) > limit
    ensures !CanDrain(id, polls, output, limit)
  {
    if |output| <= limit { NoEnd(id, polls, output, limit, n, result); }
  }

  lemma EndsHere(id: nat, polls: seq<Poll>, output: seq<byte>, limit: nat, n: nat, result: seq<byte>)
    requires Polled(id, polls, output, limit, n, result) && n < |polls| && Quiet(id, polls[n])
    requires polls[n].closed && result == output
    ensures EndsAt(id, polls, |output|, n) && CanDrain(id, polls, output, limit)
  {
    assert SeesEnd(id, polls, |output|, n);
  }

  lemma ExitsOneMore(id: nat, polls: seq<Poll>, n: nat)
    requires n < |polls|
    ensures ExitsBy(id, polls, n) <==> ExitsBy(id, polls, n - 1) || Step(id, ClientExits) in polls[n].others
  {}

  /**
    The poll loop: it ends with the whole output read, or with the client killed. It is the former
    exactly if no stop was recorded before, the output is within the limit, and some turn finds it
    closed after all of it was read, with no stop and time left until then.
  */
  method Drain(w: World, id: nat, client: Client, polls: seq<Poll>, limit: nat) returns (drained: bool, ghost k: nat)
    requires w.Valid() && w.At(id).launcher.Running? && PollsBy(id, polls)
    modifies w, w.slots
    ensures w.Valid() && w.At(id).started == old(w.At(id).started)
    ensures drained <==> !old(w.At(id).stop) && CanDrain(id, polls, client.output, limit)
    ensures drained ==> w.At(id).launcher.Running? && EndsAt(id, polls, |client.output|, k)
    ensures drained ==> (w.At(id).client <==> old(w.At(id).client) && !ExitsBy(id, polls, k))
    ensures !drained ==> w.At(id).launcher.Removing? && !w.At(id).client
  {
    ghost var stop, runs := w.At(id).stop, w.At(id).client;
    var result, n := [], 0;
    k := 0;
    while n < |polls|
      invariant 0 <= n <= |polls|
      invariant w.Valid() && w.At(id).launcher.Running? && w.At(id).started == old(w.At(id).started)
      invariant Polled(id, polls, client.output, limit, n, result)
      invariant w.At(id).stop == stop && (n > 0 ==> !stop)
      invariant w.At(id).client <==> runs && !ExitsBy(id, polls, n - 1)
    {
      assert polls[n] in polls;
      ExitsOneMore(id, polls, n);
      var turn := TakeTurn(w, id, polls[n], result, client.output, limit);
      if turn.Killed? {
        if !stop { KilledHere(id, polls, client.output, limit, n, result); }
        return false, 0;
      }
      if turn.Ended? {
        EndsHere(id, polls, client.output, limit, n, result);
        return true, n;
      }
      PollsOn(id, polls, client.output, limit, n, result, turn.result);
      result := turn.result;
      n := n + 1;
    }
    KilledHere(id, polls, client.output, limit, n, result);
    w.Do(Step(id, Kill));
    drained := false;
  }

  method StopSeen(w: World, id: nat) returns (stopped: bool)
    requires w.Valid() && w.At(id).launcher.Starting?
    modifies w, w.slots
    ensures w.Valid() && stopped == old(w.At(id).stop)
    ensures w.At(id) == old(w.At(id)).(launcher := if stopped then Removing else Cleared)
  {
    stopped := w.At(id).stop;
    w.Do(Step(id, LookForStop));
  }

  method Spawns(w: World, id: nat, spawns: bool)
    requires w.Valid() && w.At(id).launcher.Cleared?
    modifies w, w.slots
    ensures w.Valid()
    ensures w.At(id) == if spawns then old(w.At(id)).(launcher := Running, client := true, started := true)
                        else old(w.At(id)).(launcher := Removing)
  {
    w.Do(Step(id, if spawns then Popen else PopenFails));
  }

  /** The client is spawned, not stopped, read to its end within the limit, and exits in time. */
  ghost predicate RunsToEnd(id: nat, client: Client, between: seq<Step>, spawns: bool, polls: seq<Poll>,
                            last: seq<Step>, limit: nat)
  {
    && spawns && Step(id, Stop) !in between && |client.output| <= limit
    && exists k: nat ::
         EndsAt(id, polls, |client.output|, k) && (ExitsBy(id, polls, k) || Step(id, ClientExits) in last)
  }

  lemma OneEnd(id: nat, polls: seq<Poll>, length: nat, j: nat, k: nat)
    requires EndsAt(id, polls, length, j) && EndsAt(id, polls, length, k)
    ensures j == k
  {}

  /**
    The stoppable run of the runtime client. However it ends, the client is dead. A stop recorded
    before the look means the client never ran; one that falls between the look and the spawn
    (`between`) comes too late for that, but the run then gives no result. There is a result, the
    client's whole output and status, exactly if the client runs to its end. Running out of polls is
    running out of time.
  */
  method Bounded(w: World, id: nat, client: Client, between: seq<Step>, spawns: bool, polls: seq<Poll>,
                 last: seq<Step>, limit: nat)
    returns (r: Option<Client>)
    requires w.Valid() && w.At(id).launcher.Starting? && PollsBy(id, polls)
    requires NotByLauncher(id, between) && NotByLauncher(id, last)
    modifies w, w.slots
    ensures w.Valid() && w.At(id).launcher.Removing? && !w.At(id).client
    ensures w.At(id).started <==> !old(w.At(id).stop) && spawns
    ensures r.Some? <==> !old(w.At(id).stop) && RunsToEnd(id, client, between, spawns, polls, last, limit)
    ensures r.Some? ==> r.value == client && w.At(id).started
  {
    w.Sound();
    var stopped := StopSeen(w, id);
    if stopped { return None; }
    w.Meanwhile(between, id);
    Spawns(w, id, spawns);
    if !spawns { return None; }
    var drained, k := Drain(w, id, client, polls, limit);
    if !drained { return None; }
    forall j: nat | EndsAt(id, polls, |client.output|, j) ensures j == k { OneEnd(id, polls, |client.output|, j, k); }
    w.Meanwhile(last, id);
    r := Wait(w, id, client);
  }

  /** The final wait: the exit status, or the client killed because it did not exit in time. */
  method Wait(w: World, id: nat, client: Client) returns (r: Option<Client>)
    requires w.Valid() && w.At(id).launcher.Running?
    modifies w, w.slots
    ensures w.Valid() && w.At(id).launcher.Removing? && !w.At(id).client
    ensures w.At(id).started == old(w.At(id).started) && w.At(id).stop == old(w.At(id).stop)
    ensures r == if old(w.At(id).client) then None else Some(client)
  {
    if w.At(id).client {
      w.Do(Step(id, Kill));
      return None;
    }
    w.Do(Step(id, Collect));
    r := Some(client);
  }

  /** What the outside decides about one launch: every choice it makes, in order. */
  datatype Outside = Outside(
    valid: bool, checking: seq<Step>, starting: seq<Step>, between: seq<Step>, spawns: bool,
    client: Client, polls: seq<Poll>,
    last: seq<Step>, removing: seq<Step>, removeRaises: bool, removeWorks: bool, probing: seq<Step>, probeAnswers: bool)

  ghost predicate OutsideOf(id: nat, o: Outside) {
    && NotByLauncher(id, o.checking) && NotByLauncher(id, o.starting) && NotByLauncher(id, o.between)
    && PollsBy(id, o.polls)
    && NotByLauncher(id, o.last) && NotByLauncher(id, o.removing) && NotByLauncher(id, o.probing)
  }

  ghost predicate NeverAgain(w: World, id: nat) reads w, w.slots {
    forall more: seq<Step> :: !Alive(Of(After(w.View(), more).jobs, id))
  }

  lemma OverMeansNeverAgain(w: World, id: nat)
    requires w.Valid() && Settled(w.At(id))
    ensures NeverAgain(w, id)
  {
    forall more: seq<Step> ensures !Alive(Of(After(w.View(), more).jobs, id)) {
      SettledIsFinal(w.slots.limit, w.run, more, id);
    }
  }

  /** Removal and its confirmation: only the status that says there is no such container confirms. */
  method Removed(w: World, id: nat, o: Outside) returns (confirmed: bool)
    requires w.Valid() && w.At(id).launcher.Removing? && !w.At(id).client && OutsideOf(id, o)
    modifies w, w.slots
    ensures w.Valid() && w.At(id).started == old(w.At(id).started)
    ensures confirmed ==> w.At(id).launcher.Confirmed?
    ensures !confirmed ==> w.At(id).launcher.Gone?
    ensures confirmed <==> !o.removeRaises && o.probeAnswers && !Of(w.BeforeLast().jobs, id).container
    ensures !old(Alive(w.At(id))) && !o.removeRaises && o.probeAnswers ==> confirmed
  {
    w.Meanwhile(o.removing, id);
    if o.removeRaises {
      w.Do(Step(id, Crash));
      return false;
    }
    Removes(w, id, o.removeWorks);
    w.Meanwhile(o.probing, id);
    confirmed := Probes(w, id, o.probeAnswers);
  }

  method Removes(w: World, id: nat, works: bool)
    requires w.Valid() && w.At(id).launcher.Removing?
    modifies w, w.slots
    ensures w.Valid()
    ensures w.At(id) == old(w.At(id)).(launcher := Probing, container := old(w.At(id).container) && !works)
  {
    w.Do(Step(id, Remove(works)));
  }

  method Probes(w: World, id: nat, answers: bool) returns (absent: bool)
    requires w.Valid() && w.At(id).launcher.Probing?
    modifies w, w.slots
    ensures w.Valid() && w.At(id) == old(w.At(id)).(launcher := if absent then Confirmed else Gone)
    ensures absent == (answers && !old(w.At(id).container))
    ensures w.run != [] && w.BeforeLast() == old(w.View())
  {
    w.Do(Step(id, Probe(answers)));
    absent := w.At(id).launcher.Confirmed?;
  }

  /** The job is valid, and no stop is recorded until that is known. */
  predicate Proceeds(id: nat, o: Outside, stop: bool) { o.valid && !stop && Step(id, Stop) !in o.checking }

  /** Nothing stops the job, and its client works. */
  ghost predicate Succeeds(id: nat, o: Outside, stop: bool, accepts: seq<byte> -> bool) {
    Proceeds(id, o, stop) && Works(id, o, stop, accepts)
  }

  /**
    One launch. It returns a frame exactly if nothing was launched or the removal was confirmed, and
    then nothing of the job runs or ever will again. The frame carries the client's output exactly
    if the job succeeded.
  */
  method Launch(w: World, id: nat, o: Outside, accepts: seq<byte> -> bool)
    returns (frame: Option<Option<seq<byte>>>)
    requires w.Valid() && w.At(id).launcher.Checking? && OutsideOf(id, o)
    modifies w, w.slots
    ensures w.Valid()
    ensures frame.Some? ==> w.At(id).launcher.Confirmed? && NeverAgain(w, id)
    ensures frame.Some? <==>
              || !Proceeds(id, o, old(w.At(id).stop))
              || (!o.removeRaises && o.probeAnswers && !Of(w.BeforeLast().jobs, id).container)
    ensures frame.None? ==> w.At(id).launcher.Gone?
    ensures frame.Some? ==>
              frame.value == if Succeeds(id, o, old(w.At(id).stop), accepts) then Some(o.client.output) else None
    ensures !Proceeds(id, o, old(w.At(id).stop)) ==> !w.At(id).started
  {
    w.Sound();
    w.Meanwhile(o.checking, id);
    if !o.valid || w.At(id).stop {
      w.Do(Step(id, if o.valid then Accept else RefuseJob));
      OverMeansNeverAgain(w, id);
      return Some(None);
    }
    w.Do(Step(id, Accept));
    frame := Supervise(w, id, o, accepts);
  }

  /** The job's client works: it runs to its end with status 0 and an acceptable output. */
  ghost predicate Works(id: nat, o: Outside, stop: bool, accepts: seq<byte> -> bool) {
    && !stop && Step(id, Stop) !in o.starting
    && RunsToEnd(id, o.client, o.between, o.spawns, o.polls, o.last, 4194304)
    && o.client.status == 0 && accepts(o.client.output)
  }

  /** From the accepted job on: its client, then the removal of its container. */
  method Supervise(w: World, id: nat, o: Outside, accepts: seq<byte> -> bool)
    returns (frame: Option<Option<seq<byte>>>)
    requires w.Valid() && w.At(id).launcher.Starting? && OutsideOf(id, o)
    modifies w, w.slots
    ensures w.Valid()
    ensures frame.Some? <==> !o.removeRaises && o.probeAnswers && !Of(w.BeforeLast().jobs, id).container
    ensures frame.Some? ==> w.At(id).launcher.Confirmed? && NeverAgain(w, id)
    ensures frame.None? ==> w.At(id).launcher.Gone?
    ensures frame.Some? ==>
              frame.value == if Works(id, o, old(w.At(id).stop), accepts) then Some(o.client.output) else None
  {
    w.Meanwhile(o.starting, id);
    var ran := Bounded(w, id, o.client, o.between, o.spawns, o.polls, o.last, MAX_OUTPUT);
    var result := None;
    if ran.Some? && ran.value.status == 0 && accepts(ran.value.output) { result := Some(ran.value.output); }
    var confirmed := Removed(w, id, o);
    if !confirmed { return None; }
    OverMeansNeverAgain(w, id);
    frame := Some(result);
  }

  /**
    The launcher process writes exactly what the launch confirmed: the encoded result of a job that
    succeeded, if that is within the wire budget, and otherwise the encoding of no result.
  */
  method Deliver(w: World, id: nat, o: Outside, accepts: seq<byte> -> bool, encode: Option<seq<byte>> -> seq<byte>)
    returns (written: Option<seq<byte>>)
    requires w.Valid() && w.At(id).launcher.Checking? && OutsideOf(id, o)
    modifies w, w.slots
    ensures w.Valid()
    ensures written.Some? ==> w.At(id).launcher.Framed? && NeverAgain(w, id)
    ensures written.None? ==> w.At(id).launcher.Gone? && Proceeds(id, o, old(w.At(id).stop))
    ensures written.Some? ==>
              written.value
              == if Succeeds(id, o, old(w.At(id).stop), accepts) && |encode(Some(o.client.output))| <= 4194304
                 then encode(Some(o.client.output)) else encode(None)
  {
    var frame := Launch(w, id, o, accepts);
    if frame.None? { return None; }
    var encoded := encode(frame.value);
    if |encoded| > MAX_OUTPUT { encoded := encode(None); }
    w.Do(Step(id, Write));
    OverMeansNeverAgain(w, id);
    written := Some(encoded);
  }

  // ---------- The build ----------

  datatype Verdict = NoSlot | Returned | Unconfirmed

  /** The worker call, for a build that holds a slot: the slot's fate follows from what was proved. */
  method CallWorker(w: World, id: nat, prepares: bool, others: seq<Step>, heard: bool) returns (r: Verdict)
    requires w.Valid() && w.At(id).builder.Waiting? && w.At(id).launcher.Absent? && NotByBuilder(id, others)
    modifies w, w.slots
    ensures w.Valid() && !r.NoSlot?
    ensures r.Returned? ==> w.At(id).builder.Done? && (prepares ==> heard && w.At(id).launcher.Framed?)
    ensures r.Unconfirmed? ==> w.At(id).builder.Kept? && prepares && (heard ==> !w.At(id).launcher.Framed?)
  {
    if !prepares {
      w.Do(Step(id, Decline));
      return Returned;
    }
    w.Do(Step(id, Spawn));
    w.Meanwhile(others, id);
    r := Hear(w, id, heard);
  }

  /** The end of the wait: the slot is given up on, unless the launcher's frame was heard. */
  method Hear(w: World, id: nat, heard: bool) returns (r: Verdict)
    requires w.Valid() && w.At(id).builder.Waiting? && !w.At(id).launcher.Absent?
    modifies w, w.slots
    ensures w.Valid()
    ensures w.At(id) == old(w.At(id)).(builder := if r.Returned? then Done else Kept)
    ensures r == if heard && old(w.At(id).launcher.Framed?) then Returned else Unconfirmed
  {
    if !heard || !w.At(id).launcher.Framed? {
      w.Do(Step(id, GiveUp));
      return Unconfirmed;
    }
    w.Do(Step(id, Receive));
    r := Returned;
  }

  method BuildLocally(w: World, id: nat, others: seq<Step>)
    requires w.Valid() && w.At(id).builder.Local? && NotByBuilder(id, others)
    modifies w, w.slots
    ensures w.Valid() && w.At(id).builder.Done?
  {
    w.Meanwhile(others, id);
    w.Do(Step(id, LocalEnds));
  }

  /**
    One build, against any behaviour of its launcher. It is refused exactly when every slot is
    charged; it gives its slot back only when nothing of the job runs or ever will again; and a
    launcher that did not prove that keeps the slot.
  */
  method Build(w: World, id: nat, remote: bool, prepares: bool, others: seq<Step>, heard: bool)
    returns (r: Verdict)
    requires w.Valid() && w.At(id).builder.Idle? && NotByBuilder(id, others)
    modifies w, w.slots
    ensures w.Valid()
    ensures r.NoSlot? <==> |old(Where(w.View(), Charge))| == w.slots.limit
    ensures r.NoSlot? ==> w.slots.inUse == old(w.slots.inUse)
    ensures r.Returned? ==> w.At(id).builder.Done? && NeverAgain(w, id)
    ensures r.Unconfirmed? ==> remote && prepares && w.At(id).builder.Kept?
    ensures r.Returned? && remote && prepares ==> heard && w.At(id).launcher.Framed?
    ensures r.Unconfirmed? && heard ==> !w.At(id).launcher.Framed?
  {
    w.Sound();
    w.Do(Step(id, Ask(remote)));
    if w.At(id).builder.Busy? { return NoSlot; }
    if remote {
      r := CallWorker(w, id, prepares, others, heard);
    } else {
      BuildLocally(w, id, others);
      r := Returned;
    }
    if r.Returned? { OverMeansNeverAgain(w, id); }
  }
}
