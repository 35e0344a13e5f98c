/**
 What the live graph refresh protocol does once nothing fails any more: the builder
 comes back to its replay check, the server runs down what is outstanding, and both
 end up with the durable version served.
 */
module GraphConvergence {
  import opened Wrappers
  import opened Filtering
  import opened GraphRefresh

  // ---- Steps without errors ----

  /** No crash, no failed read, reload, publish or acknowledgement. */
  predicate Healthy(step: Step) {
    match step
    case ReadPgVersion(ok) => ok
    case PublishReplay(outcome) => outcome.Confirmed?
    case PublishNext(outcome) => outcome.Confirmed?
    case AckNext(ok) => ok
    case FailAfterReplace => false
    case BuilderCrash => false
    case ServerCrash => false
    case LoadFails => false
    case _ => true
  }

  ghost predicate Leads(s: State, steps: seq<Step>, t: State) {
    After(s, steps) == Some(t) && forall k :: 0 <= k < |steps| ==> Healthy(steps[k])
  }

  /** Some run without errors goes from `s` to `t`. */
  ghost predicate Reaches(s: State, t: State) {
    exists steps :: Leads(s, steps, t)
  }

  lemma ReachesItself(s: State)
    ensures Reaches(s, s)
  {
    assert Leads(s, [], s);
  }

  lemma ReachesNext(s: State, m: State, step: Step)
    requires Reaches(s, m) && Inv(m) && Enabled(m, step) && Healthy(step)
    ensures Reaches(s, Next(m, step)) && Inv(Next(m, step))
  {
    var steps :| Leads(s, steps, m);
    AfterNext(s, steps, m, step);
    assert Leads(s, steps + [step], Next(m, step));
    StepKeepsInv(m, step);
  }

  ghost function Unacked(s: State): set<nat> {
    set i: nat | i < |s.stream| && i !in s.acked
  }

  // ---- The server runs down a measure ----

  /** The ids the batch in hand will still acknowledge. */
  ghost function InBatch(s: State): set<nat> {
    if !s.server.Up? then {}
    else match s.server.refresh
      case Idle => {}
      case Loading(batch) => Ids(batch)
      case VersionRead(batch, _) => Ids(batch)
      case RowsRead(batch, _) => Ids(batch)
      case Acking(batch, ok, next) =>
        set k: nat | k < |batch| && next <= k && !MustReplay(s.stream, batch[k], ok) :: batch[k]
  }

  /** Events still to be read, once more or for the first time. */
  ghost function Outstanding(s: State): set<nat> {
    Unacked(s) - InBatch(s)
  }

  /** The server's steps until it is idle. */
  function StepsToIdle(server: Server): nat {
    match server
    case Down => 2
    case Booting(_) => 1
    case Up(_, refresh) =>
      match refresh
      case Idle => 0
      case Loading(batch) => |batch| + 4
      case VersionRead(batch, _) => |batch| + 3
      case RowsRead(batch, _) => |batch| + 2
      case Acking(batch, _, next) => 1 + if next < |batch| then |batch| - next else 0
  }

  ghost function ServerMeasure(s: State): nat {
    |Outstanding(s)| * (READ_BATCH_SIZE + 5) + StepsToIdle(s.server)
  }

  lemma ReadIsInHand(s: State, batch: seq<nat>)
    requires Inv(s) && Enabled(s, ReadBatch(batch))
    ensures forall i :: i in batch ==> i in InBatch(Next(s, ReadBatch(batch)))
  {
    var t := Next(s, ReadBatch(batch));
    forall i | i in batch ensures i in InBatch(t) {
      var k :| 0 <= k < |batch| && batch[k] == i;
      assert !MustReplay(t.stream, batch[k], true);
    }
  }

  lemma ReadShrinks(s: State, batch: seq<nat>)
    requires Inv(s) && Enabled(s, ReadBatch(batch))
    ensures |Outstanding(Next(s, ReadBatch(batch)))| < |Outstanding(s)|
  {
    var t := Next(s, ReadBatch(batch));
    ReadIsInHand(s, batch);
    assert t.stream == s.stream && t.acked == s.acked && InBatch(s) == {};
    assert batch[0] in batch && batch[0] in Unacked(s);
    assert Outstanding(t) <= Outstanding(s) - {batch[0]};
    SubsetIsSmaller(Outstanding(t), Outstanding(s) - {batch[0]});
  }

  lemma OtherStepsKeepOutstanding(s: State, step: Step)
    requires Inv(s) && Enabled(s, step) && IsServerStep(step) && Healthy(step) && !step.ReadBatch?
    ensures |Outstanding(Next(s, step))| <= |Outstanding(s)|
  {
    var t := Next(s, step);
    if step.SwapGraph? {
      SwapKeepsBatch(s);
    } else if step.AckNext? {
      AckKeepsOutstanding(s);
    }
    assert Outstanding(t) <= Outstanding(s);
    SubsetIsSmaller(Outstanding(t), Outstanding(s));
  }

  lemma SwapKeepsBatch(s: State)
    requires s.durable.contents != [] && Enabled(s, SwapGraph)
    ensures InBatch(Next(s, SwapGraph)) == InBatch(s)
  {
    var batch, t := s.server.refresh.batch, Next(s, SwapGraph);
    forall i ensures i in InBatch(t) <==> i in Ids(batch) {
      if i in batch {
        var k :| 0 <= k < |batch| && batch[k] == i;
      }
    }
  }

  lemma AckKeepsOutstanding(s: State)
    requires s.durable.contents != [] && Enabled(s, AckNext(true))
    ensures Outstanding(Next(s, AckNext(true))) <= Outstanding(s)
  {
    var r, t := s.server.refresh, Next(s, AckNext(true));
    forall i | i in InBatch(s) ensures i in InBatch(t) || i in t.acked {
      var k: nat :| k < |r.batch| && r.next <= k && !MustReplay(s.stream, r.batch[k], r.reloadSucceeded) && r.batch[k] == i;
      if k != r.next {
        assert i in InBatch(t);
      }
    }
  }

  lemma StepsToIdleDrop(s: State, step: Step)
    requires s.durable.contents != [] && Enabled(s, step) && IsServerStep(step) && Healthy(step)
    ensures var before, after := StepsToIdle(s.server), StepsToIdle(Next(s, step).server);
      if step.ReadBatch? then before == 0 && after < READ_BATCH_SIZE + 5 else after < before
  {
  }

  /** Each step of the server that goes well brings it closer to idle with nothing outstanding. */
  lemma ServerStepsDecrease(s: State, step: Step)
    requires Inv(s) && Enabled(s, step) && IsServerStep(step) && Healthy(step)
    ensures ServerMeasure(Next(s, step)) < ServerMeasure(s)
  {
    var before, after := |Outstanding(s)|, |Outstanding(Next(s, step))|;
    StepsToIdleDrop(s, step);
    if step.ReadBatch? {
      ReadShrinks(s, step.batch);
      MeasureTrades(after, before, StepsToIdle(Next(s, step).server));
    } else {
      OtherStepsKeepOutstanding(s, step);
      MultiplyMonotone(after, before, READ_BATCH_SIZE + 5);
    }
  }

  lemma MeasureTrades(after: nat, before: nat, steps: nat)
    requires after < before && steps < READ_BATCH_SIZE + 5
    ensures after * (READ_BATCH_SIZE + 5) + steps < before * (READ_BATCH_SIZE + 5)
  {
    MultiplyMonotone(after + 1, before, READ_BATCH_SIZE + 5);
  }

  lemma ServerStepsStayInside(s: State, step: Step)
    requires s.durable.contents != [] && Enabled(s, step) && IsServerStep(step)
    ensures var t := Next(s, step); t.durable == s.durable && t.builder == s.builder && t.stream == s.stream
  {
  }

  /** These steps of the server, all of them going well, with the builder and the world still. */
  ghost predicate ServerRun(states: seq<State>, steps: seq<Step>) {
    && |states| == |steps| + 1
    && Inv(states[0])
    && forall k :: 0 <= k < |steps| ==> ServerMoves(states[k], steps[k], states[k + 1])
  }

  ghost predicate ServerMoves(s: State, step: Step, t: State) {
    IsServerStep(step) && Healthy(step) && Moves(s, step, t)
  }

  ghost predicate ServerCanMove(s: State) {
    exists step :: IsServerStep(step) && Healthy(step) && Enabled(s, step)
  }

  /** `k` steps of the server lie between the two states. */
  ghost predicate Advanced(start: State, s: State, k: nat) {
    && Inv(s) && ServerMeasure(s) + k <= ServerMeasure(start)
    && s.durable == start.durable && s.builder == start.builder
  }

  lemma ServerMoveAdvances(start: State, s: State, step: Step, t: State, k: nat)
    requires k > 0 && Advanced(start, s, k - 1) && ServerMoves(s, step, t)
    ensures Advanced(start, t, k)
  {
    StepKeepsInv(s, step);
    ServerStepsStayInside(s, step);
    ServerStepsDecrease(s, step);
  }

  lemma {:induction false} ServerRunAdvances(states: seq<State>, steps: seq<Step>, k: nat)
    requires ServerRun(states, steps) && k <= |steps|
    ensures Advanced(states[0], states[k], k)
  {
    if k > 0 {
      ServerRunAdvances(states, steps, k - 1);
      ServerMoveAdvances(states[0], states[k - 1], steps[k - 1], states[k], k);
    }
  }

  ghost predicate AllAcknowledged(s: State) {
    s.server.Up? && s.server.refresh.Idle? && Unacked(s) == {}
  }

  lemma SomeServerStep(s: State) returns (step: Step)
    requires Inv(s) && !AllAcknowledged(s)
    ensures IsServerStep(step) && Healthy(step) && Enabled(s, step)
  {
    match s.server
    case Down => step := BootReadVersion;
    case Booting(_) => step := BootReadRows;
    case Up(_, refresh) =>
      match refresh
      case Idle =>
        var i :| i in Unacked(s);
        assert Pending(s) == {} ==> i !in Pending(s);
        step := if Pending(s) != {} then ReadBatch([PickPending(s)]) else ReadBatch([s.delivered]);
      case Loading(_) => step := LoadVersion;
      case VersionRead(_, _) => step := LoadRows;
      case RowsRead(_, _) => step := SwapGraph;
      case Acking(batch, _, next) => step := if next < |batch| then AckNext(true) else EndAcks;
  }

  /** A server that can take no step is up, idle and has acknowledged the whole stream. */
  lemma StillMeansAcknowledged(s: State)
    requires Inv(s) && !ServerCanMove(s)
    ensures AllAcknowledged(s)
  {
    if !AllAcknowledged(s) {
      var step := SomeServerStep(s);
    }
  }

  ghost function PickPending(s: State): (i: nat)
    requires Pending(s) != {}
    ensures i in Pending(s)
  {
    var i :| i in Pending(s);
    i
  }

  /** The builder's steps, at most, until its next replay check. */
  function StepsToCheck(b: Builder): nat {
    match b.phase
    case AtReplay => 0
    case Replaying(_) => |b.buffer| + 7
    case AtRebuild => |b.buffer| + 6
    case RowsReplaced => |b.buffer| + 5
    case VersionBumped(_) => |b.buffer| + 4
    case AtDrain(_) => |b.buffer| + 1
  }

  predicate IsCycleStep(step: Step) {
    step.PublishReplay? || step.NoRebuild? || step.ReplaceRows? || step.BumpVersion? || step.PushEvent?
    || step.PublishNext? || step.EndDrain?
  }

  ghost predicate CycleMoves(s: State, step: Step, t: State) {
    IsCycleStep(step) && Healthy(step) && Moves(s, step, t)
  }

  /** A step that brings the builder on towards its replay check. */
  function NextCycleStep(b: Builder): Step {
    match b.phase
    case AtReplay => NoRebuild
    case Replaying(_) => PublishReplay(Confirmed)
    case AtRebuild => NoRebuild
    case RowsReplaced => BumpVersion
    case VersionBumped(_) => PushEvent
    case AtDrain(_) => if b.buffer == [] then EndDrain else PublishNext(Confirmed)
  }

  lemma CycleStepReady(s: State)
    ensures var step := NextCycleStep(s.builder);
      !s.builder.phase.AtReplay? ==> IsCycleStep(step) && Healthy(step) && Enabled(s, step)
  {
  }

  lemma CycleStepsDecrease(s: State, step: Step)
    requires s.durable.contents != [] && Enabled(s, step) && IsCycleStep(step) && Healthy(step)
    ensures StepsToCheck(Next(s, step).builder) < StepsToCheck(s.builder)
  {
  }

  /** However it rebuilds and publishes, the builder is back at its replay check within that many steps. */
  lemma {:induction false} ReplayCheckComes(states: seq<State>, steps: seq<Step>, k: nat)
    requires |states| == |steps| + 1 && k <= |steps|
    requires forall i :: 0 <= i < |steps| ==> CycleMoves(states[i], steps[i], states[i + 1])
    ensures k + StepsToCheck(states[k].builder) <= StepsToCheck(states[0].builder)
    ensures k == |steps| && (forall step :: IsCycleStep(step) && Healthy(step) ==> !Enabled(states[k], step)) ==>
      Enabled(states[k], ReadPgVersion(true))
  {
    if k > 0 {
      ReplayCheckComes(states, steps, k - 1);
      assert CycleMoves(states[k - 1], steps[k - 1], states[k]);
      CycleStepsDecrease(states[k - 1], steps[k - 1]);
    }
    CycleStepReady(states[k]);
  }

  /**
   Once the builder has caught up, every run of the server without further errors ends,
   within a bound known at its start, and ends serving exactly the durable version with
   its rows: a frozen snapshot always thaws.
   */
  lemma EveryServerRunConverges(states: seq<State>, steps: seq<Step>)
    requires ServerRun(states, steps) && states[0].builder.lastPublished >= states[0].durable.Version()
    ensures |steps| <= ServerMeasure(states[0])
    ensures var t := states[|steps|];
      !ServerCanMove(t) ==>
        t.server.Up? && t.server.served == Snapshot(states[0].durable.Version(), states[0].durable.Content())
  {
    var t := states[|steps|];
    ServerRunAdvances(states, steps, |steps|);
    if !ServerCanMove(t) {
      StillMeansAcknowledged(t);
      forall i | 0 <= i < |t.stream| ensures i in t.acked {
        assert i !in Unacked(t);
      }
      RestIsConverged(t);
    }
  }

  // ---- Both processes at work ----

  ghost predicate HealthyMoves(s: State, step: Step, t: State) {
    Healthy(step) && Moves(s, step, t)
  }

  /** A run without errors, in which the two processes and the world take turns as they please. */
  ghost predicate HealthyRun(states: seq<State>, steps: seq<Step>) {
    && |states| == |steps| + 1
    && Inv(states[0])
    && forall k :: 0 <= k < |steps| ==> HealthyMoves(states[k], steps[k], states[k + 1])
  }

  /** Replays the builder still owes, counting the one in hand. */
  function ToReplay(s: State): nat
    requires s.durable.contents != []
  {
    var b := s.builder;
    if b.phase.RowsReplaced? || b.phase.VersionBumped? then 1
    else if b.lastPublished >= s.durable.Version() then 0
    else if b.phase.Replaying? && b.phase.pgVersion < s.durable.Version() then 2
    else 1
  }

  /** Events the builder may still publish for what has been rebuilt so far: buffered, to be pushed, to be replayed. */
  function ToPublish(s: State): nat
    requires s.durable.contents != []
  {
    var b := s.builder;
    |b.buffer| + (if b.phase.RowsReplaced? || b.phase.VersionBumped? then 1 else 0) + ToReplay(s)
  }

  /** How many events more a step of news may cause: a rebuild, or somebody else's event. */
  function News(step: Step): nat {
    match step
    case ReplaceRows => 2
    case AdminRebuild => 1
    case PublishOther => 1
    case _ => 0
  }

  function AllNews(steps: seq<Step>): nat {
    if steps == [] then 0 else AllNews(steps[..|steps| - 1]) + News(steps[|steps| - 1])
  }

  function ServerSteps(steps: seq<Step>): nat {
    if steps == [] then 0 else ServerSteps(steps[..|steps| - 1]) + if IsServerStep(steps[|steps| - 1]) then 1 else 0
  }

  /** What each published event takes out of what is still to be published. */
  lemma PublishedEventsAreCounted(s: State, step: Step)
    requires Inv(s) && Enabled(s, step) && Healthy(step)
    ensures var t := Next(s, step);
      t.durable.contents != [] && |t.stream| + ToPublish(t) <= |s.stream| + ToPublish(s) + News(step)
  {
  }

  /** Outside the server, what is outstanding grows by the new events at most. */
  lemma OutstandingGrows(s: State, step: Step)
    requires Inv(s) && Enabled(s, step) && !IsServerStep(step)
    ensures var t := Next(s, step); |s.stream| <= |t.stream| && |Outstanding(t)| <= |Outstanding(s)| + |t.stream| - |s.stream|
  {
    var t := Next(s, step);
    WorldGrows(s, step);
    BatchStays(s, t);
    AtMostOneEvent(s, step);
    var added: set<nat> := if |t.stream| == |s.stream| then {} else {|s.stream|};
    assert Outstanding(t) <= Outstanding(s) + added;
    SubsetIsSmaller(Outstanding(t), Outstanding(s) + added);
  }

  lemma AtMostOneEvent(s: State, step: Step)
    requires Inv(s) && Enabled(s, step)
    ensures |s.stream| <= |Next(s, step).stream| <= |s.stream| + 1
  {
  }

  /** A longer stream leaves the batch in hand as it is. */
  lemma BatchStays(s: State, t: State)
    requires Inv(s) && s.stream <= t.stream && t.server == s.server
    ensures InBatch(t) == InBatch(s)
  {
    if s.server.Up? && s.server.refresh.Acking? {
      var r := s.server.refresh;
      forall k | 0 <= k < |r.batch|
        ensures MustReplay(t.stream, r.batch[k], r.reloadSucceeded) == MustReplay(s.stream, r.batch[k], r.reloadSucceeded)
      {
        assert r.batch[k] in r.batch && r.batch[k] < s.delivered;
      }
    }
  }

  /** The server's steps to come: for what is outstanding and for what the builder will still publish. */
  ghost function Work(s: State): nat
    requires s.durable.contents != []
  {
    (|Outstanding(s)| + ToPublish(s)) * (READ_BATCH_SIZE + 5) + StepsToIdle(s.server)
  }

  lemma WorkSplits(s: State)
    requires s.durable.contents != []
    ensures Work(s) == ServerMeasure(s) + ToPublish(s) * (READ_BATCH_SIZE + 5)
  {
    Distribute(|Outstanding(s)|, ToPublish(s), READ_BATCH_SIZE + 5);
  }

  lemma ServerStepsDoWork(s: State, step: Step)
    requires Inv(s) && Enabled(s, step) && Healthy(step) && IsServerStep(step)
    ensures Next(s, step).durable == s.durable && Work(Next(s, step)) < Work(s)
  {
    var t := Next(s, step);
    ServerStepsStayInside(s, step);
    assert ToPublish(t) == ToPublish(s);
    ServerStepsDecrease(s, step);
    WorkSplits(s);
    WorkSplits(t);
  }

  lemma OtherStepsAddNews(s: State, step: Step)
    requires Inv(s) && Enabled(s, step) && Healthy(step) && !IsServerStep(step)
    ensures Next(s, step).durable.contents != []
    ensures Work(Next(s, step)) <= Work(s) + News(step) * (READ_BATCH_SIZE + 5)
  {
    var t := Next(s, step);
    var before, after := |Outstanding(s)| + ToPublish(s), |Outstanding(t)| + ToPublish(t);
    PublishedEventsAreCounted(s, step);
    OutstandingGrows(s, step);
    WorldGrows(s, step);
    MultiplyMonotone(after, before + News(step), READ_BATCH_SIZE + 5);
    Distribute(before, News(step), READ_BATCH_SIZE + 5);
  }

  lemma Distribute(a: nat, b: nat, c: nat)
    ensures (a + b) * c == a * c + b * c
  {
  }

  /** The books of a healthy run: steps taken, events published and news. */
  ghost predicate Booked(start: State, s: State, taken: nat, news: nat) {
    && Inv(start) && Inv(s)
    && taken + Work(s) <= Work(start) + news * (READ_BATCH_SIZE + 5)
    && |s.stream| + ToPublish(s) <= |start.stream| + ToPublish(start) + news
  }

  lemma MoveIsBooked(start: State, s: State, step: Step, t: State, taken: nat, news: nat)
    requires Booked(start, s, taken, news) && HealthyMoves(s, step, t)
    ensures Booked(start, t, taken + (if IsServerStep(step) then 1 else 0), news + News(step))
  {
    StepKeepsInv(s, step);
    PublishedEventsAreCounted(s, step);
    Distribute(news, News(step), READ_BATCH_SIZE + 5);
    if IsServerStep(step) {
      ServerStepsDoWork(s, step);
    } else {
      OtherStepsAddNews(s, step);
    }
  }

  lemma {:induction false} RunIsBooked(states: seq<State>, steps: seq<Step>, k: nat)
    requires HealthyRun(states, steps) && k <= |steps|
    ensures Booked(states[0], states[k], ServerSteps(steps[..k]), AllNews(steps[..k]))
  {
    if k > 0 {
      assert steps[..k][..k - 1] == steps[..k - 1];
      RunIsBooked(states, steps, k - 1);
      MoveIsBooked(states[0], states[k - 1], steps[k - 1], states[k],
                   ServerSteps(steps[..k - 1]), AllNews(steps[..k - 1]));
    }
  }

  /**
   However the two processes interleave while nothing fails: the server's steps are
   bounded by its work at the start and by the news since, so are the events published;
   and when all of these are published and the server has nothing left to do, it serves
   exactly the durable version with its rows.
   */
  lemma EveryHealthyRunConverges(states: seq<State>, steps: seq<Step>)
    requires HealthyRun(states, steps)
    ensures ServerSteps(steps) <= Work(states[0]) + AllNews(steps) * (READ_BATCH_SIZE + 5)
    ensures var s, t := states[0], states[|steps|];
      && t.durable.contents != []
      && |t.stream| + ToPublish(t) <= |s.stream| + ToPublish(s) + AllNews(steps)
      && (ToPublish(t) == 0 && !ServerCanMove(t) ==>
            t.server.Up? && t.server.served == Snapshot(t.durable.Version(), t.durable.Content()))
  {
    var t := states[|steps|];
    assert steps[..|steps|] == steps;
    RunIsBooked(states, steps, |steps|);
    if ToPublish(t) == 0 && !ServerCanMove(t) {
      StillMeansAcknowledged(t);
      forall i | 0 <= i < |t.stream| ensures i in t.acked {
        assert i !in Unacked(t);
      }
      RestIsConverged(t);
    }
  }

  /** The builder has nothing left to publish but its buffer, once the replay in hand is through. */
  ghost predicate OnlyBuffer(s: State) {
    && Inv(s) && WillPublish(s.builder, s.durable.Version())
    && !s.builder.phase.RowsReplaced? && !s.builder.phase.VersionBumped?
  }

  lemma CheckLeavesBuffer(s: State)
    requires Inv(s) && Enabled(s, ReadPgVersion(true))
    ensures OnlyBuffer(Next(s, ReadPgVersion(true)))
  {
    StepKeepsInv(s, ReadPgVersion(true));
  }

  lemma OnlyBufferStays(s: State, step: Step, t: State)
    requires OnlyBuffer(s) && HealthyMoves(s, step, t) && News(step) == 0
    ensures OnlyBuffer(t)
  {
    StepKeepsInv(s, step);
    StepWillPublish(s, step, s.durable.Version());
    assert t.durable == s.durable;
  }

  lemma {:induction false} OnlyBufferSinceCheck(states: seq<State>, steps: seq<Step>, j: nat, k: nat)
    requires HealthyRun(states, steps) && j < k <= |steps| && steps[j] == ReadPgVersion(true)
    requires forall i :: j < i < k ==> News(steps[i]) == 0
    ensures OnlyBuffer(states[k])
  {
    if k == j + 1 {
      RunIsBooked(states, steps, j);
      assert HealthyMoves(states[j], steps[j], states[k]);
      CheckLeavesBuffer(states[j]);
    } else {
      OnlyBufferSinceCheck(states, steps, j, k - 1);
      assert HealthyMoves(states[k - 1], steps[k - 1], states[k]);
      OnlyBufferStays(states[k - 1], steps[k - 1], states[k]);
    }
  }

  lemma {:induction false} NothingNewToPublish(states: seq<State>, steps: seq<Step>, j: nat, k: nat)
    requires HealthyRun(states, steps) && j <= k <= |steps| && Inv(states[j]) && ToPublish(states[j]) == 0
    requires forall i :: j <= i < k ==> News(steps[i]) == 0
    ensures Inv(states[k]) && ToPublish(states[k]) == 0
  {
    if j < k {
      NothingNewToPublish(states, steps, j, k - 1);
      var s, step := states[k - 1], steps[k - 1];
      assert HealthyMoves(s, step, states[k]);
      StepKeepsInv(s, step);
      PublishedEventsAreCounted(s, step);
      AtMostOneEvent(s, step);
    }
  }

  /**
   One cycle of the builder's loop after the last news is enough: if it has read the
   durable version and come to the end of its drain since, and the server has nothing
   left to do, the server serves exactly the durable version with its rows.
   */
  lemma OneQuietCycleConverges(states: seq<State>, steps: seq<Step>, j: nat, k: nat)
    requires HealthyRun(states, steps) && j < k < |steps| && steps[j] == ReadPgVersion(true) && steps[k] == EndDrain
    requires forall i :: j < i < |steps| ==> News(steps[i]) == 0
    requires !ServerCanMove(states[|steps|])
    ensures var t := states[|steps|];
      t.durable.contents != [] && t.server.Up? && t.server.served == Snapshot(t.durable.Version(), t.durable.Content())
  {
    OnlyBufferSinceCheck(states, steps, j, k);
    assert HealthyMoves(states[k], steps[k], states[k + 1]);
    StepKeepsInv(states[k], EndDrain);
    assert ToPublish(states[k + 1]) == 0;
    NothingNewToPublish(states, steps, k + 1, |steps|);
    EveryHealthyRunConverges(states, steps);
  }

  // ---- Some run always gets there ----

  lemma {:induction false} CycleSettles(s: State, m: State) returns (t: State)
    requires Reaches(s, m) && Inv(m)
    ensures Reaches(s, t) && Inv(t) && t.builder.phase.AtReplay?
    decreases StepsToCheck(m.builder)
  {
    if m.builder.phase.AtReplay? {
      t := m;
    } else {
      var step := NextCycleStep(m.builder);
      CycleStepReady(m);
      CycleStepsDecrease(m, step);
      ReachesNext(s, m, step);
      t := CycleSettles(s, Next(m, step));
    }
  }

  /** The next replay check brings the high-water mark up to Postgres. */
  lemma BuilderSettles(s: State) returns (t: State)
    requires Inv(s)
    ensures Reaches(s, t) && Inv(t) && t.builder.lastPublished >= t.durable.Version()
  {
    ReachesItself(s);
    t := CycleSettles(s, s);
    ReachesNext(s, t, ReadPgVersion(true));
    t := Next(t, ReadPgVersion(true));
    if t.builder.phase.Replaying? {
      ReachesNext(s, t, PublishReplay(Confirmed));
      t := Next(t, PublishReplay(Confirmed));
    }
  }

  lemma {:induction false} ServerSettles(s: State, m: State) returns (t: State)
    requires Reaches(s, m) && Inv(m)
    ensures Reaches(s, t) && Inv(t) && AllAcknowledged(t) && t.builder == m.builder && t.durable == m.durable
    decreases ServerMeasure(m)
  {
    if AllAcknowledged(m) {
      t := m;
    } else {
      var step := SomeServerStep(m);
      var next := Next(m, step);
      ServerStepsStayInside(m, step);
      ServerStepsDecrease(m, step);
      ReachesNext(s, m, step);
      t := ServerSettles(s, next);
    }
  }

  /**
   From every state the protocol can be in, whatever crashed or failed on the way
   there, a run without further errors leads to rest: no reachable state is stuck, and
   there the server serves exactly the durable version with its rows.
   */
  lemma ErrorFreeRunConverges(s: State) returns (t: State)
    requires Inv(s)
    ensures Reaches(s, t) && AtRest(t)
    ensures t.server.served == Snapshot(t.durable.Version(), t.durable.Content())
  {
    var caughtUp := BuilderSettles(s);
    t := ServerSettles(s, caughtUp);
    forall i | 0 <= i < |t.stream| ensures i in t.acked {
      assert i !in Unacked(t);
    }
    RestIsConverged(t);
  }
}
