/**
 The live graph refresh protocol: graph-builder publishes `graph.rebuilt` events
 (crates/graph-builder/src/main.rs) and mcp-server reloads its snapshot before it
 acknowledges them (crates/mcp-server/src/graph_refresh_subscriber.rs, lib.rs).

 A state machine over the atomic steps of both processes: each may crash at any
 step, every read and publish may fail, and a publish may succeed without its
 reply arriving.
 */
module GraphRefresh {
  import opened Wrappers

  datatype Event = Rebuilt(version: nat) | OtherEvent

  // ---- State ----

  /**
   Postgres: `contents[v]` is the generation of the skill rows at graph version v.
   A rebuild bumps the version together with new rows, and then once more alone.
   */
  datatype Durable = Durable(contents: seq<nat>) {
    function Version(): nat requires contents != [] { |contents| - 1 }
    function Content(): nat requires contents != [] { contents[|contents| - 1] }
  }

  /** Where the builder's main loop stands. */
  datatype BuilderPhase =
    | AtReplay
    | Replaying(pgVersion: nat)
    | AtRebuild
    | RowsReplaced
    | VersionBumped(version: nat)
    | AtDrain(maxPublished: Option<nat>)

  /**
   The builder process. `pushed` and `sent` record, since it started, every event
   pushed to the buffer and every buffered event whose publish was confirmed;
   `sentAt` gives the stream positions of the latter.
   */
  datatype Builder = Builder(phase: BuilderPhase, buffer: seq<Event>, lastPublished: nat,
                             pushed: seq<Event>, sent: seq<Event>, sentAt: seq<nat>)

  const FreshBuilder := Builder(AtReplay, [], 0, [], [], [])

  /** A served snapshot: the version it is labelled with and the generation of its rows. */
  datatype Snapshot = Snapshot(graphVersion: nat, content: nat)

  datatype Refresh =
    | Idle
    | Loading(batch: seq<nat>)
    | VersionRead(batch: seq<nat>, graphVersion: nat)
    | RowsRead(batch: seq<nat>, loaded: Snapshot)
    | Acking(batch: seq<nat>, reloadSucceeded: bool, next: nat)

  datatype Server =
    | Down
    | Booting(graphVersion: nat)
    | Up(served: Snapshot, refresh: Refresh)

  /** Stream ids are positions; ids below `delivered` went out to the consumer group. */
  datatype State = State(durable: Durable, stream: seq<Event>, delivered: nat, acked: set<nat>,
                         builder: Builder, server: Server)

  const Initial := State(Durable([0]), [], 0, {}, FreshBuilder, Down)

  // ---- Steps ----

  datatype PublishOutcome = Confirmed | Refused | ReplyLost

  datatype Step =
    // graph-builder
    | ReadPgVersion(ok: bool)
    | PublishReplay(outcome: PublishOutcome)
    | NoRebuild
    | ReplaceRows
    | BumpVersion
    | FailAfterReplace
    | PushEvent
    | PublishNext(outcome: PublishOutcome)
    | EndDrain
    | BuilderCrash
    // mcp-server
    | BootReadVersion
    | BootReadRows
    | ReadBatch(batch: seq<nat>)
    | LoadVersion
    | LoadRows
    | LoadFails
    | SwapGraph
    | AckNext(ok: bool)
    | EndAcks
    | ServerCrash
    // the world
    | AdminRebuild
    | PublishOther

  const READ_BATCH_SIZE := 64

  ghost function Pending(s: State): set<nat> {
    set i: nat | i < s.delivered && i !in s.acked
  }

  /** What one consumer-group read may return: unacknowledged ids first, fresh ones otherwise. */
  ghost predicate Readable(s: State, batch: seq<nat>) {
    && 0 < |batch| <= READ_BATCH_SIZE
    && if Pending(s) != {} then forall i :: i in batch ==> i in Pending(s)
       else s.delivered + |batch| <= |s.stream| && forall k :: 0 <= k < |batch| ==> batch[k] == s.delivered + k
  }

  predicate HasRebuilt(stream: seq<Event>, batch: seq<nat>) {
    exists k :: 0 <= k < |batch| && batch[k] < |stream| && stream[batch[k]].Rebuilt?
  }

  predicate MustReplay(stream: seq<Event>, id: nat, reloadSucceeded: bool) {
    id < |stream| && stream[id].Rebuilt? && !reloadSucceeded
  }

  /** `swap_graph`: only a strictly newer snapshot replaces the served one. */
  function SwapIn(served: Snapshot, incoming: Snapshot): Snapshot {
    if incoming.graphVersion > served.graphVersion then incoming else served
  }

  function Max(a: nat, b: nat): nat { if a < b then b else a }

  function NoteVersion(maxPublished: Option<nat>, e: Event): Option<nat> {
    match e
    case Rebuilt(v) => Some(Max(if maxPublished.Some? then maxPublished.value else 0, v))
    case OtherEvent => maxPublished
  }

  /** The drain is over: the high-water mark takes in what it published. */
  function AfterDrain(b: Builder, maxPublished: Option<nat>): Builder {
    b.(phase := AtReplay,
       lastPublished := if maxPublished.Some? then Max(b.lastPublished, maxPublished.value) else b.lastPublished)
  }

  ghost predicate Enabled(s: State, step: Step) {
    match step
    case ReadPgVersion(_) => s.builder.phase.AtReplay?
    case PublishReplay(_) => s.builder.phase.Replaying?
    case NoRebuild => s.builder.phase.AtRebuild?
    case ReplaceRows => s.builder.phase.AtRebuild?
    case BumpVersion => s.builder.phase.RowsReplaced?
    case FailAfterReplace => s.builder.phase.RowsReplaced? || s.builder.phase.VersionBumped?
    case PushEvent => s.builder.phase.VersionBumped?
    case PublishNext(_) => s.builder.phase.AtDrain? && s.builder.buffer != []
    case EndDrain => s.builder.phase.AtDrain? && s.builder.buffer == []
    case BuilderCrash => true
    case BootReadVersion => s.server.Down?
    case BootReadRows => s.server.Booting?
    case ReadBatch(batch) => s.server.Up? && s.server.refresh.Idle? && Readable(s, batch)
    case LoadVersion => s.server.Up? && s.server.refresh.Loading?
    case LoadRows => s.server.Up? && s.server.refresh.VersionRead?
    case LoadFails => s.server.Up? && (s.server.refresh.Loading? || s.server.refresh.VersionRead?)
    case SwapGraph => s.server.Up? && s.server.refresh.RowsRead?
    case AckNext(_) => s.server.Up? && s.server.refresh.Acking? && s.server.refresh.next < |s.server.refresh.batch|
    case EndAcks => s.server.Up? && s.server.refresh.Acking? && s.server.refresh.next >= |s.server.refresh.batch|
    case ServerCrash => true
    case AdminRebuild => true
    case PublishOther => true
  }

  ghost function Next(s: State, step: Step): State
    requires s.durable.contents != [] && Enabled(s, step)
  {
    var b := s.builder;
    match step
    case ReadPgVersion(ok) =>
      if ok && s.durable.Version() > b.lastPublished then s.(builder := b.(phase := Replaying(s.durable.Version())))
      else s.(builder := b.(phase := AtRebuild))
    case PublishReplay(outcome) =>
      s.(stream := if outcome.Refused? then s.stream else s.stream + [Rebuilt(b.phase.pgVersion)],
         builder := b.(phase := AtRebuild,
                       lastPublished := if outcome.Confirmed? then b.phase.pgVersion else b.lastPublished))
    case NoRebuild => s.(builder := b.(phase := AtDrain(None)))
    case ReplaceRows =>
      s.(durable := Durable(s.durable.contents + [s.durable.Content() + 1]), builder := b.(phase := RowsReplaced))
    case BumpVersion =>
      s.(durable := Durable(s.durable.contents + [s.durable.Content()]),
         builder := b.(phase := VersionBumped(s.durable.Version() + 1)))
    case FailAfterReplace => s.(builder := b.(phase := AtDrain(None)))
    case PushEvent =>
      s.(builder := b.(phase := AtDrain(None), buffer := b.buffer + [Rebuilt(b.phase.version)],
                       pushed := b.pushed + [Rebuilt(b.phase.version)]))
    case PublishNext(outcome) =>
      (match outcome
       case Confirmed =>
         s.(stream := s.stream + [b.buffer[0]],
            builder := b.(phase := AtDrain(NoteVersion(b.phase.maxPublished, b.buffer[0])), buffer := b.buffer[1..],
                          sent := b.sent + [b.buffer[0]], sentAt := b.sentAt + [|s.stream|]))
       case Refused => s.(builder := AfterDrain(b, b.phase.maxPublished))
       case ReplyLost =>
         s.(stream := s.stream + [b.buffer[0]], builder := AfterDrain(b, b.phase.maxPublished)))
    case EndDrain => s.(builder := AfterDrain(b, b.phase.maxPublished))
    case BuilderCrash => s.(builder := FreshBuilder)
    case BootReadVersion => s.(server := Booting(s.durable.Version()))
    case BootReadRows => s.(server := Up(Snapshot(s.server.graphVersion, s.durable.Content()), Idle))
    case ReadBatch(batch) =>
      s.(delivered := if Pending(s) != {} then s.delivered else s.delivered + |batch|,
         server := s.server.(refresh := if HasRebuilt(s.stream, batch) then Loading(batch) else Acking(batch, true, 0)))
    case LoadVersion => s.(server := s.server.(refresh := VersionRead(s.server.refresh.batch, s.durable.Version())))
    case LoadRows =>
      s.(server := s.server.(refresh :=
           RowsRead(s.server.refresh.batch, Snapshot(s.server.refresh.graphVersion, s.durable.Content()))))
    case LoadFails => s.(server := s.server.(refresh := Acking(s.server.refresh.batch, false, 0)))
    case SwapGraph =>
      s.(server := Up(SwapIn(s.server.served, s.server.refresh.loaded), Acking(s.server.refresh.batch, true, 0)))
    case AckNext(ok) =>
      var r := s.server.refresh;
      var id := r.batch[r.next];
      s.(acked := if ok && !MustReplay(s.stream, id, r.reloadSucceeded) then s.acked + {id} else s.acked,
         server := s.server.(refresh := r.(next := r.next + 1)))
    case EndAcks => s.(server := s.server.(refresh := Idle))
    case ServerCrash => s.(server := Down)
    case AdminRebuild => s.(durable := Durable(s.durable.contents + [s.durable.Content() + 1]))
    case PublishOther => s.(stream := s.stream + [OtherEvent])
  }

  // ---- Runs ----

  ghost predicate Run(states: seq<State>, steps: seq<Step>) {
    && |states| == |steps| + 1
    && states[0] == Initial
    && forall k :: 0 <= k < |steps| ==> Moves(states[k], steps[k], states[k + 1])
  }

  ghost predicate Moves(s: State, step: Step, t: State) {
    s.durable.contents != [] && Enabled(s, step) && t == Next(s, step)
  }

  // ---- The invariant ----

  /** The event names no version beyond `limit`. */
  predicate AtMost(e: Event, limit: nat) {
    e.Rebuilt? ==> e.version <= limit
  }

  ghost predicate DurableOk(d: Durable) {
    d.contents != [] && forall v, w :: 0 <= v <= w < |d.contents| ==> d.contents[v] <= d.contents[w]
  }

  /** Rows at least as new as those of the version on the label, and no newer than Postgres holds. */
  ghost predicate SnapshotOk(d: Durable, snapshot: Snapshot)
    requires DurableOk(d)
  {
    && snapshot.graphVersion <= d.Version()
    && d.contents[snapshot.graphVersion] <= snapshot.content <= d.Content()
  }

  /** Every rebuild event was published for a version Postgres already had. */
  ghost predicate StreamOk(s: State)
    requires DurableOk(s.durable)
  {
    && (forall i :: 0 <= i < |s.stream| ==> AtMost(s.stream[i], s.durable.Version()))
    && s.delivered <= |s.stream|
    && forall i :: i in s.acked ==> i < s.delivered
  }

  ghost predicate OnStream(stream: seq<Event>, v: nat) {
    v == 0 || Rebuilt(v) in stream
  }

  ghost predicate BuilderOk(s: State)
    requires DurableOk(s.durable)
  {
    var b := s.builder;
    && (forall e :: e in b.buffer ==> AtMost(e, s.durable.Version()))
    && OnStream(s.stream, b.lastPublished)
    && (b.phase.Replaying? ==> b.lastPublished < b.phase.pgVersion <= s.durable.Version())
    && (b.phase.VersionBumped? ==> b.phase.version <= s.durable.Version())
    && (b.phase.AtDrain? && b.phase.maxPublished.Some? ==> OnStream(s.stream, b.phase.maxPublished.value))
  }

  /** Confirmed events, then the buffer, are everything pushed; confirmed events reached the stream in order. */
  ghost predicate OutboxOk(stream: seq<Event>, b: Builder) {
    && b.sent + b.buffer == b.pushed
    && |b.sentAt| == |b.sent|
    && (forall k :: 0 <= k < |b.sent| ==> b.sentAt[k] < |stream| && stream[b.sentAt[k]] == b.sent[k])
    && (forall k, l :: 0 <= k < l < |b.sentAt| ==> b.sentAt[k] < b.sentAt[l])
  }

  /** No rebuild event among these ids is newer than `version`. */
  ghost predicate CaughtUp(stream: seq<Event>, ids: set<nat>, version: nat) {
    forall i :: i in ids && i < |stream| ==> AtMost(stream[i], version)
  }

  function Ids(batch: seq<nat>): set<nat> {
    set i | i in batch
  }

  ghost predicate RefreshOk(s: State)
    requires DurableOk(s.durable) && s.server.Up?
  {
    var served := s.server.served;
    match s.server.refresh
    case Idle => true
    case Loading(batch) => InStream(s, batch)
    case VersionRead(batch, v) =>
      && InStream(s, batch) && v <= s.durable.Version() && CaughtUp(s.stream, Ids(batch), v)
      && served.content <= s.durable.contents[v]
    case RowsRead(batch, loaded) =>
      && InStream(s, batch) && SnapshotOk(s.durable, loaded) && CaughtUp(s.stream, Ids(batch), loaded.graphVersion)
      && served.content <= loaded.content
    case Acking(batch, succeeded, _) =>
      InStream(s, batch) && (succeeded ==> CaughtUp(s.stream, Ids(batch), served.graphVersion))
  }

  ghost predicate InStream(s: State, batch: seq<nat>) {
    forall i :: i in batch ==> i < s.delivered
  }

  ghost predicate ServerOk(s: State)
    requires DurableOk(s.durable)
  {
    match s.server
    case Down => true
    case Booting(v) => v <= s.durable.Version() && CaughtUp(s.stream, s.acked, v)
    case Up(served, _) =>
      SnapshotOk(s.durable, served) && CaughtUp(s.stream, s.acked, served.graphVersion) && RefreshOk(s)
  }

  ghost predicate Inv(s: State) {
    DurableOk(s.durable) && StreamOk(s) && BuilderOk(s) && OutboxOk(s.stream, s.builder) && ServerOk(s)
  }

  // ---- Each step keeps the invariant ----

  predicate IsServerStep(step: Step) {
    step.BootReadVersion? || step.BootReadRows? || step.ReadBatch? || step.LoadVersion? || step.LoadRows?
    || step.LoadFails? || step.SwapGraph? || step.AckNext? || step.EndAcks? || step.ServerCrash?
  }

  /** Outside the server, the stream and Postgres only grow and the server does not move. */
  lemma WorldGrows(s: State, step: Step)
    requires Inv(s) && Enabled(s, step) && !IsServerStep(step)
    ensures var t := Next(s, step);
      && s.stream <= t.stream && s.durable.contents <= t.durable.contents && DurableOk(t.durable)
      && t.delivered == s.delivered && t.acked == s.acked && t.server == s.server
  {
  }

  lemma GrowthKeepsServer(s: State, t: State)
    requires Inv(s) && DurableOk(t.durable)
    requires s.stream <= t.stream && s.durable.contents <= t.durable.contents
    requires t.delivered == s.delivered && t.acked == s.acked && t.server == s.server
    ensures ServerOk(t)
  {
    assert s.durable.Version() <= t.durable.Version() && s.durable.Content() <= t.durable.Content();
    assert forall i: nat :: i < |s.stream| ==> t.stream[i] == s.stream[i];
  }

  lemma BuilderStepKeepsInv(s: State, step: Step)
    requires Inv(s) && Enabled(s, step) && !IsServerStep(step)
    ensures Inv(Next(s, step))
  {
    var t := Next(s, step);
    WorldGrows(s, step);
    GrowthKeepsServer(s, t);
    assert s.durable.Version() <= t.durable.Version();
    assert forall e :: e in s.stream ==> e in t.stream;
    BuilderStepKeepsOutbox(s, step);
  }

  lemma BuilderStepKeepsOutbox(s: State, step: Step)
    requires s.durable.contents != [] && OutboxOk(s.stream, s.builder)
    requires Enabled(s, step) && !IsServerStep(step)
    ensures OutboxOk(Next(s, step).stream, Next(s, step).builder)
  {
    var t := Next(s, step);
    if step.PublishNext? && step.outcome.Confirmed? {
      assert t.builder.sent + t.builder.buffer == s.builder.sent + s.builder.buffer;
    }
  }

  lemma ServerStepKeepsInv(s: State, step: Step)
    requires Inv(s) && Enabled(s, step) && IsServerStep(step)
    ensures Inv(Next(s, step))
  {
    var t := Next(s, step);
    match step
    case ReadBatch(batch) =>
      assert InStream(t, batch);
    case SwapGraph =>
      assert t.server.served.graphVersion >= s.server.served.graphVersion;
      assert t.server.served.graphVersion >= s.server.refresh.loaded.graphVersion;
    case AckNext(ok) =>
      var r := s.server.refresh;
      assert r.batch[r.next] in r.batch && r.batch[r.next] in Ids(r.batch);
    case _ =>
  }

  lemma StepKeepsInv(s: State, step: Step)
    requires Inv(s) && Enabled(s, step)
    ensures Inv(Next(s, step))
  {
    if IsServerStep(step) {
      ServerStepKeepsInv(s, step);
    } else {
      BuilderStepKeepsInv(s, step);
    }
  }

  lemma {:induction false} RunKeepsInv(states: seq<State>, steps: seq<Step>, k: nat)
    requires Run(states, steps) && k <= |steps|
    ensures Inv(states[k])
  {
    if k > 0 {
      RunKeepsInv(states, steps, k - 1);
      assert Moves(states[k - 1], steps[k - 1], states[k]);
      StepKeepsInv(states[k - 1], steps[k - 1]);
    }
  }

  // ---- What every run guarantees ----

  /**
   At every point of every run: whenever a rebuild event of version v is
   acknowledged and the server is up, it serves version v or later; what it serves
   never passes Postgres, and its rows are never older than its label.
   */
  lemma AckedMeansServed(states: seq<State>, steps: seq<Step>, k: nat)
    requires Run(states, steps) && k <= |steps| && states[k].server.Up?
    ensures var s := states[k];
      && s.durable.contents != []
      && (forall i :: i in s.acked ==> i < |s.stream| && AtMost(s.stream[i], s.server.served.graphVersion))
      && s.server.served.graphVersion < |s.durable.contents|
      && s.durable.contents[s.server.served.graphVersion] <= s.server.served.content <= s.durable.Content()
  {
    RunKeepsInv(states, steps, k);
  }

  lemma StepNeverGoesBack(s: State, step: Step)
    requires Inv(s) && Enabled(s, step) && s.server.Up? && !step.ServerCrash?
    ensures var t := Next(s, step);
      && t.server.Up? && s.server.served.content <= t.server.served.content
      && (t.server.served == s.server.served || s.server.served.graphVersion < t.server.served.graphVersion)
  {
  }

  /**
   Within one server process neither the served version nor its rows ever go back, and a
   snapshot gives way to one of a strictly later version only.
   */
  lemma {:induction false} ServedNeverDecreases(states: seq<State>, steps: seq<Step>, j: nat, k: nat)
    requires Run(states, steps) && j <= k <= |steps| && states[j].server.Up?
    requires forall i :: j <= i < k ==> !steps[i].ServerCrash?
    ensures states[k].server.Up?
    ensures states[j].server.served.graphVersion <= states[k].server.served.graphVersion
    ensures states[j].server.served.content <= states[k].server.served.content
    ensures states[j].server.served != states[k].server.served ==>
      states[j].server.served.graphVersion < states[k].server.served.graphVersion
  {
    if j < k {
      ServedNeverDecreases(states, steps, j, k - 1);
      RunKeepsInv(states, steps, k - 1);
      assert Moves(states[k - 1], steps[k - 1], states[k]);
      StepNeverGoesBack(states[k - 1], steps[k - 1]);
    }
  }

  /**
   The outbox loses and reorders nothing: since the builder started, the confirmed
   events followed by the buffer are everything pushed, and the confirmed ones sit on
   the stream in that order. The high-water mark is 0 or a version on the stream.
   */
  lemma OutboxIsLossless(states: seq<State>, steps: seq<Step>, k: nat)
    requires Run(states, steps) && k <= |steps|
    ensures OutboxOk(states[k].stream, states[k].builder)
    ensures OnStream(states[k].stream, states[k].builder.lastPublished)
  {
    RunKeepsInv(states, steps, k);
  }

  /** The version is published, or about to be. */
  predicate WillPublish(b: Builder, v: nat) {
    b.lastPublished >= v || (b.phase.Replaying? && b.phase.pgVersion >= v)
  }

  /** The builder does not crash and no replay fails. */
  predicate ReplaysSucceed(step: Step) {
    !step.BuilderCrash? && (step.PublishReplay? ==> step.outcome.Confirmed?)
  }

  lemma StepWillPublish(s: State, step: Step, v: nat)
    requires Inv(s) && Enabled(s, step) && ReplaysSucceed(step) && WillPublish(s.builder, v)
    ensures WillPublish(Next(s, step).builder, v)
  {
  }

  lemma {:induction false} ReplayWillPublish(states: seq<State>, steps: seq<Step>, k: nat, m: nat)
    requires Run(states, steps) && k < m <= |steps| && steps[k] == ReadPgVersion(true)
    requires forall i :: k < i < m ==> ReplaysSucceed(steps[i])
    ensures states[k].durable.contents != [] && WillPublish(states[m].builder, states[k].durable.Version())
  {
    RunKeepsInv(states, steps, m - 1);
    assert Moves(states[m - 1], steps[m - 1], states[m]);
    if k < m - 1 {
      ReplayWillPublish(states, steps, k, m - 1);
      StepWillPublish(states[m - 1], steps[m - 1], states[k].durable.Version());
    }
  }

  /**
   Whatever happens elsewhere: once the builder has read the durable version and its
   replays go through, from the end of the replay step on its high-water mark is at or
   above the version it read, and that mark is on the stream.
   */
  lemma ReplayCatchesUp(states: seq<State>, steps: seq<Step>, k: nat, m: nat)
    requires Run(states, steps) && k < m <= |steps| && steps[k] == ReadPgVersion(true)
    requires forall i :: k < i < m ==> ReplaysSucceed(steps[i])
    requires !states[m].builder.phase.Replaying?
    ensures states[k].durable.contents != [] && states[m].builder.lastPublished >= states[k].durable.Version()
    ensures OnStream(states[m].stream, states[m].builder.lastPublished)
  {
    ReplayWillPublish(states, steps, k, m);
    RunKeepsInv(states, steps, m);
  }

  /** Nothing is in flight: the last replay caught up and every event is acknowledged. */
  ghost predicate AtRest(s: State) {
    && s.durable.contents != []
    && s.builder.lastPublished >= s.durable.Version()
    && s.server.Up?
    && forall i :: 0 <= i < |s.stream| ==> i in s.acked
  }

  lemma RestIsConverged(s: State)
    requires Inv(s) && AtRest(s)
    ensures s.server.served == Snapshot(s.durable.Version(), s.durable.Content())
  {
    if s.durable.Version() > 0 {
      var v := s.builder.lastPublished;
      var i :| 0 <= i < |s.stream| && s.stream[i] == Rebuilt(v);
      assert i in s.acked && AtMost(s.stream[i], s.server.served.graphVersion);
    }
  }

  /**
   No rebuild is lost for good: whatever crashed or failed on the way, once the
   builder has caught up and the stream is acknowledged, the server serves exactly
   the durable version with its rows.
   */
  lemma RestMeansConverged(states: seq<State>, steps: seq<Step>, k: nat)
    requires Run(states, steps) && k <= |steps| && AtRest(states[k])
    ensures states[k].server.served == Snapshot(states[k].durable.Version(), states[k].durable.Content())
  {
    RunKeepsInv(states, steps, k);
    RestIsConverged(states[k]);
  }

  /** The state after these steps, taken one after the other without interruption. */
  ghost function After(s: State, steps: seq<Step>): Option<State> {
    if steps == [] then Some(s)
    else
      match After(s, steps[..|steps| - 1])
      case None => None
      case Some(m) =>
        if m.durable.contents != [] && Enabled(m, steps[|steps| - 1]) then Some(Next(m, steps[|steps| - 1])) else None
  }

  lemma AfterNext(s: State, steps: seq<Step>, m: State, step: Step)
    requires After(s, steps) == Some(m) && m.durable.contents != [] && Enabled(m, step)
    ensures After(s, steps + [step]) == Some(Next(m, step))
  {
    assert (steps + [step])[..|steps|] == steps;
  }
}
