/**
 The admin rebuild job queue (crates/admin/src/tools.rs): a work queue under one
 mutex whose single runner is spawned on demand. A state machine over its critical
 sections, interleaved in any order, and the class that performs them.
 */
module RebuildJobs {
  import opened Wrappers
  import opened Filtering

  datatype Status = Queued | Running | Succeeded | Failed {
    predicate Terminal() { Succeeded? || Failed? }
  }

  datatype Counts = Counts(graphVersion: int, skillsCount: nat, communitiesCount: nat)

  /** The trigger's `Unavailable` and `Failed` errors. */
  datatype TriggerError = Unavailable | Broken

  /** A job record; the counts are those of a successful rebuild. */
  datatype Job = Job(status: Status, reasonCode: Option<string>, counts: Option<Counts>)

  const NewJob := Job(Queued, None, None)

  /** A spawned runner: about to take the lock for a pop, or rebuilding for a job. */
  datatype Runner = Ready | Working(job: nat)

  /** What `enqueue_rebuild` told its caller, and how many jobs had been popped by then. */
  datatype Receipt = Receipt(queuePosition: nat, popsBefore: nat)

  /**
   Job ids are their sequence numbers. `reserved` holds numbers drawn by callers that
   have not taken the lock yet; `pushed`, `popped` and `receipts` are history, and
   `orphan` is the job whose runner died over it.
   */
  datatype State = State(nextSequence: nat, reserved: set<nat>, jobs: map<nat, Job>, queue: seq<nat>,
                         runnerActive: bool, runners: seq<Runner>,
                         pushed: seq<nat>, popped: seq<nat>, receipts: map<nat, Receipt>, orphan: Option<nat>)

  const Initial := State(1, {}, map[], [], false, [], [], [], map[], None)

  datatype Step =
    | Reserve
    | Enqueue(job: nat)
    | Pop(runner: nat)
    | Exit(runner: nat)
    | Finish(runner: nat, result: Result<Counts, TriggerError>)
    | Panic(runner: nat)  // the trigger panics and takes the runner task with it

  predicate Enabled(s: State, step: Step) {
    match step
    case Reserve => true
    case Enqueue(job) => job in s.reserved
    case Pop(r) => r < |s.runners| && s.runners[r].Ready? && s.queue != []
    case Exit(r) => r < |s.runners| && s.runners[r].Ready? && s.queue == []
    case Finish(r, _) => r < |s.runners| && s.runners[r].Working?
    case Panic(r) => r < |s.runners| && s.runners[r].Working?
  }

  /** The record of a running job once its rebuild returned. */
  function Finished(job: Job, result: Result<Counts, TriggerError>): Job {
    match result
    case Success(counts) => Job(Succeeded, None, Some(counts))
    case Failure(Unavailable) => job.(status := Failed, reasonCode := Some("rebuild_unavailable"))
    case Failure(Broken) => job.(status := Failed, reasonCode := Some("rebuild_failed"))
  }

  function Begun(job: Job): Job {
    job.(status := Running, reasonCode := None)
  }

  /** Applies `change` to a job's record if there is one. */
  function Update(jobs: map<nat, Job>, id: nat, change: Job -> Job): map<nat, Job> {
    if id in jobs then jobs[id := change(jobs[id])] else jobs
  }

  function Next(s: State, step: Step): State
    requires Enabled(s, step)
  {
    match step
    case Reserve => s.(nextSequence := s.nextSequence + 1, reserved := s.reserved + {s.nextSequence})
    case Enqueue(id) =>
      s.(reserved := s.reserved - {id}, jobs := s.jobs[id := NewJob], queue := s.queue + [id],
         runnerActive := true, runners := if s.runnerActive then s.runners else s.runners + [Ready],
         pushed := s.pushed + [id], receipts := s.receipts[id := Receipt(|s.queue|, |s.popped|)])
    case Pop(r) =>
      s.(jobs := Update(s.jobs, s.queue[0], Begun), queue := s.queue[1..],
         runners := s.runners[r := Working(s.queue[0])], popped := s.popped + [s.queue[0]])
    case Exit(r) =>
      s.(runnerActive := false, runners := s.runners[..r] + s.runners[r + 1..])
    case Finish(r, result) =>
      s.(jobs := Update(s.jobs, s.runners[r].job, job => Finished(job, result)), runners := s.runners[r := Ready])
    case Panic(r) =>
      s.(runners := s.runners[..r] + s.runners[r + 1..], orphan := Some(s.runners[r].job))
  }

  ghost predicate Run(states: seq<State>, steps: seq<Step>) {
    && |states| == |steps| + 1
    && forall k :: 0 <= k < |steps| ==> Moves(states[k], steps[k], states[k + 1])
  }

  ghost predicate Moves(s: State, step: Step, t: State) {
    Enabled(s, step) && t == Next(s, step)
  }

  // ---- The invariant ----

  /** At most one runner; the flag is set whenever there is work, and stands for a runner unless one died. */
  ghost predicate SingleRunner(s: State) {
    && |s.runners| == (if s.runnerActive && s.orphan.None? then 1 else 0)
    && (s.queue != [] ==> s.runnerActive)
    && (s.orphan.Some? ==> s.runnerActive)
  }

  /** Jobs are popped in the order they were pushed, each id at most once. */
  ghost predicate Fifo(s: State) {
    && s.popped + s.queue == s.pushed
    && NoRepeats(s.pushed)
    && (forall id :: id in s.pushed ==> id < s.nextSequence && id !in s.reserved)
    && (forall id :: id in s.reserved ==> id < s.nextSequence)
  }

  /** Every receipt puts its job at the place its position promised. */
  ghost predicate ReceiptsHonest(s: State) {
    forall k :: 0 <= k < |s.pushed| ==>
      && s.pushed[k] in s.receipts
      && s.receipts[s.pushed[k]].popsBefore + s.receipts[s.pushed[k]].queuePosition == k
      && s.receipts[s.pushed[k]].popsBefore <= |s.popped|
  }

  ghost predicate InHand(s: State, id: nat) {
    exists r :: 0 <= r < |s.runners| && s.runners[r] == Working(id)
  }

  /** A job's status says where it is, with nothing on its record yet but for a final one; an orphan is left running. */
  ghost predicate StatusesTrue(s: State) {
    && (forall id :: id in s.jobs <==> id in s.pushed)
    && (forall id :: id in s.queue ==> id in s.jobs && s.jobs[id] == Job(Queued, None, None))
    && (forall id :: InHand(s, id) ==> id in s.popped)
    && (s.orphan.Some? ==> s.orphan.value in s.popped)
    && (forall id :: id in s.popped ==>
          && id in s.jobs
          && if InHand(s, id) || s.orphan == Some(id) then s.jobs[id] == Job(Running, None, None)
             else s.jobs[id].status.Terminal())
  }

  ghost predicate Inv(s: State) {
    SingleRunner(s) && Fifo(s) && ReceiptsHonest(s) && StatusesTrue(s)
  }

  lemma EnqueueKeepsInv(s: State, id: nat)
    requires Inv(s) && Enabled(s, Enqueue(id))
    ensures Inv(Next(s, Enqueue(id)))
  {
    EnqueueKeepsFifo(s, id);
    EnqueueKeepsReceipts(s, id);
    EnqueueKeepsStatuses(s, id);
  }

  lemma EnqueueKeepsFifo(s: State, id: nat)
    requires Fifo(s) && Enabled(s, Enqueue(id))
    ensures Fifo(Next(s, Enqueue(id)))
  {
    var t := Next(s, Enqueue(id));
    assert t.popped + t.queue == t.pushed;
    assert id !in s.pushed;
  }

  lemma EnqueueKeepsReceipts(s: State, id: nat)
    requires Fifo(s) && ReceiptsHonest(s) && Enabled(s, Enqueue(id))
    ensures ReceiptsHonest(Next(s, Enqueue(id)))
  {
    assert |s.pushed| == |s.popped| + |s.queue|;
    assert id !in s.pushed;
  }

  lemma EnqueueKeepsStatuses(s: State, id: nat)
    requires SingleRunner(s) && Fifo(s) && StatusesTrue(s) && Enabled(s, Enqueue(id))
    ensures StatusesTrue(Next(s, Enqueue(id)))
  {
    var t := Next(s, Enqueue(id));
    assert id !in s.pushed;
    forall other ensures InHand(t, other) <==> InHand(s, other) {
      if InHand(s, other) {
        var r :| 0 <= r < |s.runners| && s.runners[r] == Working(other);
        assert t.runners[r] == Working(other);
      }
    }
  }

  lemma PopKeepsInv(s: State, r: nat)
    requires Inv(s) && Enabled(s, Pop(r))
    ensures Inv(Next(s, Pop(r)))
  {
    PopKeepsFifo(s, r);
    PopKeepsStatuses(s, r);
  }

  lemma PopKeepsFifo(s: State, r: nat)
    requires Fifo(s) && Enabled(s, Pop(r))
    ensures Fifo(Next(s, Pop(r)))
  {
    var t := Next(s, Pop(r));
    assert t.popped + t.queue == t.pushed;
  }

  /** The head of the queue is neither popped already nor queued again behind itself. */
  lemma HeadIsElsewhere(s: State)
    requires Fifo(s) && s.queue != []
    ensures s.queue[0] in s.pushed && s.queue[0] !in s.popped && s.queue[0] !in s.queue[1..]
  {
    var id := s.queue[0];
    assert s.pushed[|s.popped|] == id;
    forall k | 0 <= k < |s.popped| ensures s.popped[k] != id {
      assert s.pushed[k] == s.popped[k];
    }
    forall k | 0 < k < |s.queue| ensures s.queue[k] != id {
      assert s.pushed[|s.popped| + k] == s.queue[k];
    }
  }

  lemma PopKeepsStatuses(s: State, r: nat)
    requires SingleRunner(s) && Fifo(s) && StatusesTrue(s) && Enabled(s, Pop(r))
    ensures StatusesTrue(Next(s, Pop(r)))
  {
    var t, id := Next(s, Pop(r)), s.queue[0];
    HeadIsElsewhere(s);
    assert s.runners == [Ready] && t.runners == [Working(id)];
    forall other ensures InHand(t, other) <==> other == id {
      assert t.runners[0] == Working(id);
    }
    assert forall other :: !InHand(s, other);
  }

  lemma FinishKeepsInv(s: State, r: nat, result: Result<Counts, TriggerError>)
    requires Inv(s) && Enabled(s, Finish(r, result))
    ensures Inv(Next(s, Finish(r, result)))
  {
    var t, id := Next(s, Finish(r, result)), s.runners[r].job;
    assert s.runners == [Working(id)] && t.runners == [Ready];
    assert InHand(s, id) && forall other :: InHand(s, other) ==> other == id;
    assert forall other :: !InHand(t, other);
    var k :| 0 <= k < |s.popped| && s.popped[k] == id;
    assert s.pushed[k] == id;
    forall j | 0 <= j < |s.queue| ensures s.queue[j] != id {
      assert s.pushed[|s.popped| + j] == s.queue[j];
    }
  }

  lemma PanicKeepsInv(s: State, r: nat)
    requires Inv(s) && Enabled(s, Panic(r))
    ensures Inv(Next(s, Panic(r)))
  {
    var t, id := Next(s, Panic(r)), s.runners[r].job;
    assert s.runners == [Working(id)] && t.runners == [];
    assert InHand(s, id) && forall other :: InHand(s, other) ==> other == id;
    assert forall other :: !InHand(t, other);
  }

  lemma StepKeepsInv(s: State, step: Step)
    requires Inv(s) && Enabled(s, step)
    ensures Inv(Next(s, step))
  {
    match step
    case Reserve =>
      assert forall id :: InHand(Next(s, step), id) <==> InHand(s, id);
    case Enqueue(id) => EnqueueKeepsInv(s, id);
    case Pop(r) => PopKeepsInv(s, r);
    case Exit(r) =>
      assert s.runners == [Ready] && Next(s, step).runners == [];
      assert forall id :: !InHand(s, id) && !InHand(Next(s, step), id);
    case Finish(r, result) => FinishKeepsInv(s, r, result);
    case Panic(r) => PanicKeepsInv(s, r);
  }

  /**
   In every interleaving: at most one runner, a non-empty queue has one unless a runner
   died, jobs leave in the order they were pushed and each once.
   */
  lemma {:induction false} RunKeepsInv(states: seq<State>, steps: seq<Step>, k: nat)
    requires Run(states, steps) && states[0] == Initial && k <= |steps|
    ensures Inv(states[k])
  {
    if k > 0 {
      RunKeepsInv(states, steps, k - 1);
      assert Moves(states[k - 1], steps[k - 1], states[k]);
      StepKeepsInv(states[k - 1], steps[k - 1]);
    }
  }

  /**
   A job is popped after exactly as many pops, counted from its own enqueue, as the
   position its caller was given.
   */
  lemma PoppedAfterItsPosition(states: seq<State>, steps: seq<Step>, i: nat, j: nat, id: nat)
    requires Run(states, steps) && states[0] == Initial && i < |steps| && j < |steps|
    requires steps[i] == Enqueue(id)
    requires steps[j].Pop? && states[j].queue != [] && states[j].queue[0] == id
    ensures i < j
    ensures id in states[i + 1].receipts
    ensures |states[j].popped| - |states[i].popped| == states[i + 1].receipts[id].queuePosition
  {
    RunKeepsInv(states, steps, i);
    RunKeepsInv(states, steps, j);
    assert Moves(states[i], steps[i], states[i + 1]);
    assert states[j].queue[0] in states[j].pushed by {
      assert states[j].pushed[|states[j].popped|] == id;
    }
    assert id in states[i].reserved && id !in states[i].pushed;
    if j <= i {
      PushedGrows(states, steps, j, i);
    } else {
      PushedGrows(states, steps, i + 1, j);
      var k := |states[i].pushed|;
      assert states[i + 1].pushed[k] == id == states[j].pushed[k] == states[j].pushed[|states[j].popped|];
    }
  }

  lemma {:induction false} PushedGrows(states: seq<State>, steps: seq<Step>, i: nat, j: nat)
    requires Run(states, steps) && i <= j <= |steps|
    ensures states[i].pushed <= states[j].pushed
  {
    if i < j {
      PushedGrows(states, steps, i, j - 1);
      assert Moves(states[j - 1], steps[j - 1], states[j]);
    }
  }

  // ---- Statuses only move forward ----

  /** queued, then running, then succeeded or failed; a final record never changes again. */
  predicate Forward(before: Job, after: Job) {
    || after == before
    || (before.status == Queued && after.status == Running)
    || (before.status == Running && after.status.Terminal())
    || (before.status == Queued && after.status.Terminal())
  }

  lemma StepMovesForward(s: State, step: Step, id: nat)
    requires Inv(s) && Enabled(s, step) && id in s.jobs
    ensures var t := Next(s, step);
      id in t.jobs && Forward(s.jobs[id], t.jobs[id])
      && !(s.jobs[id].status == Queued && t.jobs[id].status.Terminal())
  {
    match step
    case Pop(r) =>
      assert s.queue[0] in s.queue;
    case Finish(r, _) =>
      assert InHand(s, s.runners[r].job);
    case _ =>
  }

  lemma {:induction false} StatusesMoveForward(states: seq<State>, steps: seq<Step>, i: nat, j: nat, id: nat)
    requires Run(states, steps) && states[0] == Initial && i <= j <= |steps| && id in states[i].jobs
    ensures id in states[j].jobs && Forward(states[i].jobs[id], states[j].jobs[id])
  {
    if i < j {
      StatusesMoveForward(states, steps, i, j - 1, id);
      RunKeepsInv(states, steps, j - 1);
      assert Moves(states[j - 1], steps[j - 1], states[j]);
      StepMovesForward(states[j - 1], steps[j - 1], id);
    }
  }

  // ---- A final record tells what the trigger returned ----

  /** The record of a job whose rebuild returned this. */
  predicate Tells(job: Job, result: Result<Counts, TriggerError>) {
    && (job.status == Succeeded <==> result.Success?)
    && (job.status == Failed <==> result.Failure?)
    && (result.Success? ==> job.counts == Some(result.value) && job.reasonCode == None)
    && (result.Failure? ==> job.counts == None)
    && (job.reasonCode == Some("rebuild_unavailable") <==> result == Failure(Unavailable))
    && (job.reasonCode == Some("rebuild_failed") <==> result == Failure(Broken))
  }

  lemma ReasonsDiffer()
    ensures "rebuild_unavailable" != "rebuild_failed"
  {
    assert |"rebuild_unavailable"| != |"rebuild_failed"|;
  }

  lemma FinishTells(s: State, r: nat, result: Result<Counts, TriggerError>)
    requires Inv(s) && Enabled(s, Finish(r, result))
    ensures var t, id := Next(s, Finish(r, result)), s.runners[r].job; id in t.jobs && Tells(t.jobs[id], result)
  {
    var id := s.runners[r].job;
    ReasonsDiffer();
    assert InHand(s, id) && s.jobs[id] == Job(Running, None, None);
  }

  /** From the moment a job's rebuild returned, its record tells the result, at every later point of every run. */
  lemma ResultIsRecorded(states: seq<State>, steps: seq<Step>, i: nat, k: nat, r: nat, result: Result<Counts, TriggerError>)
    requires Run(states, steps) && states[0] == Initial && i < k <= |steps| && steps[i] == Finish(r, result)
    ensures r < |states[i].runners| && states[i].runners[r].Working?
    ensures var id := states[i].runners[r].job; id in states[k].jobs && Tells(states[k].jobs[id], result)
  {
    RunKeepsInv(states, steps, i);
    assert Moves(states[i], steps[i], states[i + 1]);
    FinishTells(states[i], r, result);
    StatusesMoveForward(states, steps, i + 1, k, states[i].runners[r].job);
  }

  /** The job's rebuild returned at step `i`. */
  predicate Returned(states: seq<State>, steps: seq<Step>, i: nat, id: nat)
    requires |states| == |steps| + 1
  {
    && i < |steps| && steps[i].Finish?
    && steps[i].runner < |states[i].runners| && states[i].runners[steps[i].runner] == Working(id)
  }

  lemma OnlyFinishEnds(s: State, step: Step, id: nat)
    requires Inv(s) && Enabled(s, step)
    requires id in Next(s, step).jobs && Next(s, step).jobs[id].status.Terminal()
    ensures (id in s.jobs && s.jobs[id] == Next(s, step).jobs[id]) || (step.Finish? && s.runners[step.runner] == Working(id))
  {
  }

  /** And no record is final otherwise: it tells what the trigger returned for its own job. */
  lemma {:induction false} FinalTellsItsResult(states: seq<State>, steps: seq<Step>, k: nat, id: nat) returns (i: nat)
    requires Run(states, steps) && states[0] == Initial && k <= |steps|
    requires id in states[k].jobs && states[k].jobs[id].status.Terminal()
    ensures i < k && Returned(states, steps, i, id) && Tells(states[k].jobs[id], steps[i].result)
  {
    RunKeepsInv(states, steps, k - 1);
    assert Moves(states[k - 1], steps[k - 1], states[k]);
    OnlyFinishEnds(states[k - 1], steps[k - 1], id);
    if id in states[k - 1].jobs && states[k - 1].jobs[id] == states[k].jobs[id] {
      i := FinalTellsItsResult(states, steps, k - 1, id);
    } else {
      i := k - 1;
      ResultIsRecorded(states, steps, i, k, steps[i].runner, steps[i].result);
    }
  }

  // ---- The runner drains the queue ----

  predicate IsRunnerStep(step: Step) {
    step.Pop? || step.Exit? || step.Finish? || step.Panic?
  }

  function Measure(s: State): nat {
    2 * |s.queue| + (if exists r :: 0 <= r < |s.runners| && s.runners[r].Working? then 1 else 0) + |s.runners|
  }

  lemma RunnerStepsDecrease(s: State, step: Step)
    requires Inv(s) && Enabled(s, step) && IsRunnerStep(step)
    ensures Measure(Next(s, step)) < Measure(s)
  {
    var t := Next(s, step);
    match step
    case Pop(r) =>
      assert s.runners == [Ready] && t.runners == [Working(s.queue[0])];
    case Exit(r) =>
      assert s.runners == [Ready] && t.runners == [];
    case Finish(r, _) =>
      assert s.runners[r].Working? && t.runners == [Ready];
    case Panic(r) =>
      assert s.runners[r].Working? && t.runners == [];
  }

  /** Without new jobs the runner takes at most `Measure` more steps. */
  lemma {:induction false} RunnerTerminates(states: seq<State>, steps: seq<Step>)
    requires Run(states, steps) && Inv(states[0]) && forall k :: 0 <= k < |steps| ==> IsRunnerStep(steps[k])
    ensures |steps| <= Measure(states[0])
  {
    if steps != [] {
      assert Moves(states[0], steps[0], states[1]);
      StepKeepsInv(states[0], steps[0]);
      RunnerStepsDecrease(states[0], steps[0]);
      forall k | 0 <= k < |steps[1..]| ensures Moves(states[1..][k], steps[1..][k], states[1..][k + 1]) {
        assert Moves(states[k + 1], steps[k + 1], states[k + 2]);
      }
      RunnerTerminates(states[1..], steps[1..]);
    }
  }

  /** When it has stopped, every job ever pushed has succeeded or failed exactly if no runner died. */
  lemma StoppedMeansDone(s: State)
    requires Inv(s)
    requires forall step :: IsRunnerStep(step) ==> !Enabled(s, step)
    ensures s.orphan.None? <==> forall id :: id in s.jobs ==> s.jobs[id].status.Terminal()
    ensures s.orphan.None? ==> s.queue == [] && !s.runnerActive && s.popped == s.pushed
  {
    if s.orphan.Some? {
      assert s.jobs[s.orphan.value].status == Running;
    } else {
      assert s.runnerActive ==> Enabled(s, Pop(0)) || Enabled(s, Exit(0)) || Enabled(s, Finish(0, Failure(Unavailable)));
      assert s.popped == s.pushed;
    }
  }

  // ---- What the flag does not survive ----

  /** The flag is set but no runner stands behind it. */
  ghost predicate Abandoned(s: State) {
    s.runnerActive && s.runners == []
  }

  ghost predicate Panicked(steps: seq<Step>, k: nat)
    requires k <= |steps|
  {
    exists i :: 0 <= i < k && steps[i].Panic?
  }

  lemma {:induction false} OrphanIffPanicked(states: seq<State>, steps: seq<Step>, k: nat)
    requires Run(states, steps) && states[0] == Initial && k <= |steps|
    ensures states[k].orphan.Some? <==> Panicked(steps, k)
  {
    if k > 0 {
      OrphanIffPanicked(states, steps, k - 1);
      assert Moves(states[k - 1], steps[k - 1], states[k]);
      assert Panicked(steps, k) <==> Panicked(steps, k - 1) || steps[k - 1].Panic?;
    }
  }

  /** In every run the queue is abandoned exactly when some runner has panicked. */
  lemma AbandonedIffPanicked(states: seq<State>, steps: seq<Step>, k: nat)
    requires Run(states, steps) && states[0] == Initial && k <= |steps|
    ensures Abandoned(states[k]) <==> Panicked(steps, k)
  {
    RunKeepsInv(states, steps, k);
    OrphanIffPanicked(states, steps, k);
  }

  /** A panic can happen: the first job's rebuild is enough. */
  lemma PanicIsReachable() returns (states: seq<State>, steps: seq<Step>)
    ensures Run(states, steps) && states[0] == Initial
    ensures Abandoned(states[|steps|]) && |states[|steps|].jobs| == 1
  {
    var s1 := Next(Initial, Reserve);
    var s2 := Next(s1, Enqueue(1));
    var s3 := Next(s2, Pop(0));
    var s4 := Next(s3, Panic(0));
    states, steps := [Initial, s1, s2, s3, s4], [Reserve, Enqueue(1), Pop(0), Panic(0)];
    assert Moves(Initial, Reserve, s1) && Moves(s1, Enqueue(1), s2) && Moves(s2, Pop(0), s3) && Moves(s3, Panic(0), s4);
    assert s4.jobs.Keys == {1};
  }

  /** What a panic leaves: the job running, later enqueues waiting behind it. */
  ghost predicate Stuck(s: State, id: nat, popped: seq<nat>, queue: seq<nat>) {
    && Abandoned(s)
    && id in s.jobs && s.jobs[id].status == Running
    && s.popped == popped
    && queue <= s.queue
  }

  lemma PanicSticks(s: State, step: Step)
    requires Inv(s) && Enabled(s, step) && step.Panic?
    ensures Stuck(Next(s, step), s.runners[step.runner].job, s.popped, s.queue)
  {
    var t, id := Next(s, step), s.runners[step.runner].job;
    StepKeepsInv(s, step);
    assert s.runners == [Working(id)] && t.runners == [];
    assert t.orphan == Some(id) && id in t.popped;
  }

  lemma StuckStays(s: State, step: Step, id: nat, popped: seq<nat>, queue: seq<nat>)
    requires Inv(s) && Enabled(s, step) && Stuck(s, id, popped, queue)
    ensures Stuck(Next(s, step), id, popped, queue)
  {
    assert step.Reserve? || step.Enqueue?;
    if step.Enqueue? {
      assert step.job != id;
    }
  }

  /**
   After a panic nothing is ever popped again: enqueues trust the flag and spawn no
   runner. The job whose rebuild panicked is reported running for good.
   */
  lemma {:induction false} AbandonedForever(states: seq<State>, steps: seq<Step>, i: nat, k: nat)
    requires Run(states, steps) && states[0] == Initial && i < k <= |steps| && steps[i].Panic?
    ensures steps[i].runner < |states[i].runners| && states[i].runners[steps[i].runner].Working?
    ensures Stuck(states[k], states[i].runners[steps[i].runner].job, states[i].popped, states[i].queue)
  {
    assert Moves(states[i], steps[i], states[i + 1]);
    if k == i + 1 {
      RunKeepsInv(states, steps, i);
      PanicSticks(states[i], steps[i]);
    } else {
      AbandonedForever(states, steps, i, k - 1);
      RunKeepsInv(states, steps, k - 1);
      assert Moves(states[k - 1], steps[k - 1], states[k]);
      StuckStays(states[k - 1], steps[k - 1], states[i].runners[steps[i].runner].job, states[i].popped, states[i].queue);
    }
  }

  /** A turn of a runner that nothing interrupts: it takes the next job and finishes it. */
  lemma TurnTakesOneJob(s: State, result: Result<Counts, TriggerError>)
    requires s.runners == [Ready] && s.queue != []
    ensures var t := Next(s, Pop(0));
      && t.orphan == s.orphan && t.runners == [Working(s.queue[0])] && t.queue == s.queue[1..] && t.pushed == s.pushed
    ensures var t := Next(Next(s, Pop(0)), Finish(0, result));
      && t.orphan == s.orphan && t.runners == [Ready] && t.queue == s.queue[1..] && t.pushed == s.pushed
  {
  }

  /** And only that job's record changes in the turn. */
  lemma TurnRecordsOneJob(s: State, result: Result<Counts, TriggerError>)
    requires Inv(s) && s.runners == [Ready] && s.queue != []
    ensures var id, t := s.queue[0], Next(Next(s, Pop(0)), Finish(0, result));
      && t.jobs.Keys == s.jobs.Keys && id in t.jobs && Tells(t.jobs[id], result)
      && forall other :: other in s.jobs && other != id ==> t.jobs[other] == s.jobs[other]
  {
    var id, m := s.queue[0], Next(s, Pop(0));
    PopKeepsInv(s, 0);
    FinishTells(m, 0, result);
    assert id in s.queue && m.runners == [Working(id)];
    assert m.jobs == s.jobs[id := Begun(s.jobs[id])];
    assert Next(m, Finish(0, result)).jobs == m.jobs[id := Finished(m.jobs[id], result)];
  }

  lemma QueueRepeatsNothing(s: State)
    requires Fifo(s)
    ensures NoRepeats(s.queue)
  {
    forall k, l | 0 <= k < l < |s.queue| ensures s.queue[k] != s.queue[l] {
      assert s.queue[k] == s.pushed[|s.popped| + k] && s.queue[l] == s.pushed[|s.popped| + l];
    }
  }

  /** The records once the first `done` jobs of a queue have been run. */
  ghost predicate Ran(jobs: map<nat, Job>, before: map<nat, Job>, all: seq<nat>, done: nat,
                      trigger: nat -> Result<Counts, TriggerError>)
    requires done <= |all|
  {
    && jobs.Keys == before.Keys
    && (forall k :: 0 <= k < done ==> all[k] in jobs && Tells(jobs[all[k]], trigger(all[k])))
    && (forall id :: id in jobs && id !in all ==> jobs[id] == before[id])
  }

  lemma OneMoreRan(jobs: map<nat, Job>, after: map<nat, Job>, before: map<nat, Job>, all: seq<nat>, done: nat,
                   trigger: nat -> Result<Counts, TriggerError>)
    requires done < |all| && NoRepeats(all) && Ran(jobs, before, all, done, trigger)
    requires after.Keys == jobs.Keys && all[done] in after && Tells(after[all[done]], trigger(all[done]))
    requires forall other :: other in after && other != all[done] ==> after[other] == jobs[other]
    ensures Ran(after, before, all, done + 1, trigger)
  {
    forall k | 0 <= k < done ensures all[k] in after && Tells(after[all[k]], trigger(all[k])) {
      assert all[k] != all[done];
    }
    assert all[done] in all;
  }

  // ---- The class whose critical sections these are ----

  class RebuildJobQueue {
    var nextJobSequence: nat
    var jobs: map<nat, Job>
    var queue: seq<nat>
    var runnerActive: bool
    ghost var machine: State

    ghost predicate Valid()
      reads this
    {
      && Inv(machine)
      && machine.nextSequence == nextJobSequence && machine.jobs == jobs
      && machine.queue == queue && machine.runnerActive == runnerActive
    }

    constructor ()
      ensures Valid() && machine == Initial
    {
      nextJobSequence, jobs, queue, runnerActive := 1, map[], [], false;
      machine := Initial;
    }

    /** Draws a job number; the lock is not held. */
    method ReserveId() returns (id: nat)
      requires Valid()
      modifies this
      ensures Valid() && machine == Next(old(machine), Reserve) && id == old(nextJobSequence)
    {
      id := nextJobSequence;
      StepKeepsInv(machine, Reserve);
      nextJobSequence := nextJobSequence + 1;
      machine := Next(machine, Reserve);
    }

    /** The critical section of `enqueue_rebuild`; `spawn` asks for a runner task. */
    method EnqueueLocked(id: nat) returns (queuePosition: nat, spawn: bool)
      requires Valid() && id in machine.reserved
      modifies this
      ensures Valid() && machine == Next(old(machine), Enqueue(id))
      ensures queuePosition == machine.receipts[id].queuePosition
      ensures spawn <==> |machine.runners| > |old(machine).runners|
    {
      StepKeepsInv(machine, Enqueue(id));
      machine := Next(machine, Enqueue(id));
      queuePosition := |queue|;
      jobs := jobs[id := NewJob];
      queue := queue + [id];
      spawn := !runnerActive;
      if !runnerActive {
        runnerActive := true;
      }
    }

    /** The runner's critical section: takes the next job, or clears the flag and leaves. */
    method PopOrExit() returns (popped: Option<nat>)
      requires Valid() && machine.runners == [Ready]
      modifies this
      ensures Valid()
      ensures machine == Next(old(machine), if old(queue) == [] then Exit(0) else Pop(0))
      ensures popped == if old(queue) == [] then None else Some(old(queue)[0])
    {
      StepKeepsInv(machine, if queue == [] then Exit(0) else Pop(0));
      machine := Next(machine, if queue == [] then Exit(0) else Pop(0));
      if queue == [] {
        runnerActive := false;
        return None;
      }
      var id := queue[0];
      queue := queue[1..];
      if id in jobs {
        jobs := jobs[id := jobs[id].(status := Running, reasonCode := None)];
      }
      popped := Some(id);
    }

    /** Records a rebuild's result under the lock. */
    method RecordResult(id: nat, result: Result<Counts, TriggerError>)
      requires Valid() && machine.runners == [Working(id)]
      modifies this
      ensures Valid() && machine == Next(old(machine), Finish(0, result))
      ensures id in jobs && Tells(jobs[id], result)
    {
      StepKeepsInv(machine, Finish(0, result));
      FinishTells(machine, 0, result);
      machine := Next(machine, Finish(0, result));
      if id in jobs {
        var job := jobs[id];
        match result {
          case Success(counts) => job := Job(Succeeded, None, Some(counts));
          case Failure(error) =>
            job := job.(status := Failed,
                        reasonCode := Some(if error.Unavailable? then "rebuild_unavailable" else "rebuild_failed"));
        }
        jobs := jobs[id := job];
      }
    }

    /** One turn of the runner loop with nothing interleaved. */
    method RunNextJob(trigger: nat -> Result<Counts, TriggerError>) returns (more: bool)
      requires Valid() && machine.runners == [Ready]
      modifies this
      ensures Valid() && more == (old(queue) != [])
      ensures machine.pushed == old(machine.pushed)
      ensures more ==> machine.runners == [Ready] && queue == old(queue)[1..]
      ensures more ==>
        var id := old(queue)[0];
        && jobs.Keys == old(jobs).Keys && id in jobs && Tells(jobs[id], trigger(id))
        && forall other :: other in jobs && other != id ==> jobs[other] == old(jobs)[other]
      ensures !more ==> jobs == old(jobs)
      ensures !more ==> machine.runners == [] && !runnerActive && queue == []
    {
      ghost var before := machine;
      var popped := PopOrExit();
      if popped.None? {
        return false;
      }
      TurnTakesOneJob(before, trigger(popped.value));
      TurnRecordsOneJob(before, trigger(popped.value));
      RecordResult(popped.value, trigger(popped.value));
      more := true;
    }

    /** The runner loop with nothing interleaved: it finishes every queued job and leaves. */
    method RunJobsUntilEmpty(trigger: nat -> Result<Counts, TriggerError>)
      requires Valid() && machine.runners == [Ready]
      modifies this
      ensures Valid() && queue == [] && !runnerActive && machine.runners == []
      ensures machine.pushed == old(machine.pushed) && machine.popped == machine.pushed
      ensures jobs.Keys == old(jobs).Keys && forall id :: id in jobs ==> jobs[id].status.Terminal()
      ensures forall id :: id in old(queue) ==> id in jobs && Tells(jobs[id], trigger(id))
      ensures forall id :: id in jobs && id !in old(queue) ==> jobs[id] == old(jobs)[id]
    {
      var more := true;
      ghost var all, done, before := queue, 0, jobs;
      QueueRepeatsNothing(machine);
      while more
        invariant Valid() && machine.pushed == old(machine.pushed)
        invariant if more then machine.runners == [Ready] else machine.runners == [] && !runnerActive && queue == []
        invariant done <= |all| && queue == all[done..] && Ran(jobs, before, all, done, trigger)
        decreases more, |queue|
      {
        ghost var was := jobs;
        more := RunNextJob(trigger);
        if more {
          OneMoreRan(was, jobs, before, all, done, trigger);
          done := done + 1;
        }
      }
      StoppedMeansDone(machine);
    }
  }
}
