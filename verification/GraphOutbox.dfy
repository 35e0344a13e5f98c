/**
 The builder's outbox in the live graph refresh (crates/graph-builder/src/main.rs): what
 becomes of a rebuild's event, and what the high-water mark stands for.
 */
module GraphOutbox {
  import opened Wrappers
  import opened GraphRefresh

  // ---- A finished rebuild is in the outbox ----

  /** The builder process neither dies nor gives its rebuild up. */
  predicate CarriesOn(step: Step) {
    step != BuilderCrash && step != FailAfterReplace
  }

  lemma BumpAnnounces(s: State, t: State)
    requires Inv(s) && Moves(s, BumpVersion, t)
    ensures t.durable.contents != [] && t.builder.phase == VersionBumped(t.durable.Version())
  {
  }

  lemma AnnouncedStays(s: State, step: Step, t: State, v: nat)
    requires Moves(s, step, t) && CarriesOn(step) && s.builder.phase == VersionBumped(v)
    ensures t.builder.phase == VersionBumped(v) || (step == PushEvent && Rebuilt(v) in t.builder.pushed)
  {
    if step == PushEvent {
      assert t.builder.pushed[|s.builder.pushed|] == Rebuilt(v);
    }
  }

  lemma PushedStays(s: State, step: Step, t: State, e: Event)
    requires Moves(s, step, t) && CarriesOn(step) && e in s.builder.pushed
    ensures e in t.builder.pushed
  {
  }

  lemma {:induction false} AnnouncedOrPushed(states: seq<State>, steps: seq<Step>, i: nat, k: nat, v: nat)
    requires Run(states, steps) && i < k <= |steps| && steps[i] == BumpVersion
    requires states[i + 1].durable.contents != [] && v == states[i + 1].durable.Version()
    requires forall j :: i < j < k ==> CarriesOn(steps[j])
    ensures states[k].builder.phase == VersionBumped(v) || Rebuilt(v) in states[k].builder.pushed
  {
    assert Moves(states[k - 1], steps[k - 1], states[k]);
    if k == i + 1 {
      RunKeepsInv(states, steps, i);
      BumpAnnounces(states[i], states[k]);
    } else {
      AnnouncedOrPushed(states, steps, i, k - 1, v);
      if Rebuilt(v) in states[k - 1].builder.pushed {
        PushedStays(states[k - 1], steps[k - 1], states[k], Rebuilt(v));
      } else {
        AnnouncedStays(states[k - 1], steps[k - 1], states[k], v);
      }
    }
  }

  /**
   A rebuild that runs to its end is not left to the replay: unless the builder dies, the
   event that names the version Postgres then had is in the outbox, confirmed or waiting,
   as soon as the builder has gone on to its drain and ever after.
   */
  lemma RebuildIsInOutbox(states: seq<State>, steps: seq<Step>, i: nat, k: nat)
    requires Run(states, steps) && i < k <= |steps| && steps[i] == BumpVersion
    requires forall j :: i < j < k ==> CarriesOn(steps[j])
    requires !states[k].builder.phase.VersionBumped?
    ensures states[i + 1].durable.contents != []
    ensures Rebuilt(states[i + 1].durable.Version()) in states[k].builder.sent + states[k].builder.buffer
  {
    RunKeepsInv(states, steps, i + 1);
    RunKeepsInv(states, steps, k);
    AnnouncedOrPushed(states, steps, i, k, states[i + 1].durable.Version());
  }

  // ---- The high-water mark ----

  /** At step `i` the publish of version `v` was confirmed. */
  ghost predicate ConfirmedAt(states: seq<State>, steps: seq<Step>, i: nat, v: nat)
    requires |states| == |steps| + 1
  {
    && i < |steps|
    && ((steps[i] == PublishReplay(Confirmed) && states[i].builder.phase == Replaying(v))
        || (steps[i] == PublishNext(Confirmed) && states[i].builder.buffer != [] && states[i].builder.buffer[0] == Rebuilt(v)))
  }

  ghost predicate ConfirmedBefore(states: seq<State>, steps: seq<Step>, k: nat, v: nat)
    requires |states| == |steps| + 1
  {
    v == 0 || exists i :: 0 <= i < k && ConfirmedAt(states, steps, i, v)
  }

  ghost predicate MarkConfirmed(states: seq<State>, steps: seq<Step>, k: nat)
    requires |states| == |steps| + 1 && k <= |steps|
  {
    var b := states[k].builder;
    && ConfirmedBefore(states, steps, k, b.lastPublished)
    && (b.phase.AtDrain? && b.phase.maxPublished.Some? ==> ConfirmedBefore(states, steps, k, b.phase.maxPublished.value))
  }

  /** What a step makes of the mark, and of the one a drain is gathering. */
  lemma MarksMove(s: State, step: Step, t: State)
    requires Moves(s, step, t)
    ensures var b, c := s.builder, t.builder;
      && (c.lastPublished == 0 || c.lastPublished == b.lastPublished
          || (step == PublishReplay(Confirmed) && b.phase == Replaying(c.lastPublished))
          || (b.phase.AtDrain? && b.phase.maxPublished == Some(c.lastPublished)))
      && (c.phase.AtDrain? && c.phase.maxPublished.Some? ==>
            var v := c.phase.maxPublished.value;
            || v == 0 || (b.phase.AtDrain? && b.phase.maxPublished == Some(v))
            || (step == PublishNext(Confirmed) && b.buffer != [] && b.buffer[0] == Rebuilt(v)))
  {
  }

  lemma {:induction false} RunKeepsMarkConfirmed(states: seq<State>, steps: seq<Step>, k: nat)
    requires Run(states, steps) && k <= |steps|
    ensures MarkConfirmed(states, steps, k)
  {
    if k > 0 {
      RunKeepsMarkConfirmed(states, steps, k - 1);
      assert Moves(states[k - 1], steps[k - 1], states[k]);
      MarksMove(states[k - 1], steps[k - 1], states[k]);
      var v := states[k].builder.lastPublished;
      assert ConfirmedAt(states, steps, k - 1, v) ==> ConfirmedBefore(states, steps, k, v);
      if states[k].builder.phase.AtDrain? && states[k].builder.phase.maxPublished.Some? {
        var w := states[k].builder.phase.maxPublished.value;
        assert ConfirmedAt(states, steps, k - 1, w) ==> ConfirmedBefore(states, steps, k, w);
      }
    }
  }

  /**
   The mark stands for a confirmation: unless 0, it is a version whose publish was confirmed
   at some step of the run. A publish whose reply is lost leaves the version to be replayed.
   */
  lemma MarkWasConfirmed(states: seq<State>, steps: seq<Step>, k: nat) returns (i: nat)
    requires Run(states, steps) && k <= |steps| && states[k].builder.lastPublished > 0
    ensures i < k && ConfirmedAt(states, steps, i, states[k].builder.lastPublished)
  {
    RunKeepsMarkConfirmed(states, steps, k);
    i :| 0 <= i < k && ConfirmedAt(states, steps, i, states[k].builder.lastPublished);
  }

  /** The mark, with what the drain under way will add to it, covers every version a drain has confirmed. */
  ghost predicate MarkCovers(b: Builder) {
    forall e :: e in b.sent ==>
      AtMost(e, if b.phase.AtDrain? && b.phase.maxPublished.Some? then Max(b.lastPublished, b.phase.maxPublished.value)
                else b.lastPublished)
  }

  lemma StepKeepsMarkCovers(s: State, step: Step)
    requires Inv(s) && Enabled(s, step) && MarkCovers(s.builder)
    ensures MarkCovers(Next(s, step).builder)
  {
  }

  lemma {:induction false} RunKeepsMarkCovers(states: seq<State>, steps: seq<Step>, k: nat)
    requires Run(states, steps) && k <= |steps|
    ensures MarkCovers(states[k].builder)
  {
    if k > 0 {
      RunKeepsMarkCovers(states, steps, k - 1);
      RunKeepsInv(states, steps, k - 1);
      assert Moves(states[k - 1], steps[k - 1], states[k]);
      StepKeepsMarkCovers(states[k - 1], steps[k - 1]);
    }
  }

  /** A replay never repeats what a drain of the same builder process has confirmed: it publishes a later version. */
  lemma ReplayIsNews(states: seq<State>, steps: seq<Step>, k: nat)
    requires Run(states, steps) && k <= |steps| && states[k].builder.phase.Replaying?
    ensures forall e :: e in states[k].builder.sent && e.Rebuilt? ==> e.version < states[k].builder.phase.pgVersion
  {
    RunKeepsMarkCovers(states, steps, k);
    RunKeepsInv(states, steps, k);
  }
}
