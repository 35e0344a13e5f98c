/**
 What becomes of a batch in the live graph refresh (`process_batch`,
 crates/mcp-server/src/graph_refresh_subscriber.rs), over any run in between: what is
 acknowledged when it ends, what stays for another delivery, and when nothing is reloaded.
 */
module GraphBatches {
  import opened GraphRefresh

  /** Some position before `upTo` has been acknowledged for this id. */
  ghost predicate Passed(stream: seq<Event>, batch: seq<nat>, reloadSucceeded: bool, upTo: nat, id: nat) {
    exists k :: 0 <= k < |batch| && k < upTo && batch[k] == id && (reloadSucceeded || !IsRebuild(stream, id))
  }

  predicate IsRebuild(stream: seq<Event>, id: nat) {
    id < |stream| && stream[id].Rebuilt?
  }

  ghost predicate HoldsRebuild(stream: seq<Event>, batch: seq<nat>) {
    exists id :: id in batch && IsRebuild(stream, id)
  }

  /** The server is at work on the batch it was given when the stream was `stream`. */
  ghost predicate AtWork(s: State, stream: seq<Event>, batch: seq<nat>) {
    && s.server.Up? && !s.server.refresh.Idle? && s.server.refresh.batch == batch
    && stream <= s.stream && (forall id :: id in batch ==> id < |stream|)
    && (!HoldsRebuild(stream, batch) ==> s.server.refresh.Acking? && s.server.refresh.reloadSucceeded)
    && forall id :: id in batch ==> (id in s.acked <==> Settled(s, id))
  }

  /** The id has been acknowledged in this batch. */
  ghost predicate Settled(s: State, id: nat)
    requires s.server.Up? && !s.server.refresh.Idle?
  {
    var r := s.server.refresh;
    r.Acking? && Passed(s.stream, r.batch, r.reloadSucceeded, r.next, id)
  }

  /** A step that neither ends the batch nor fails an acknowledgement nor crashes the server. */
  predicate Works(step: Step) {
    step != EndAcks && step != ServerCrash && (step.AckNext? ==> step.ok)
  }

  lemma ReadBegins(s: State, batch: seq<nat>, t: State)
    requires Inv(s) && Moves(s, ReadBatch(batch), t)
    ensures AtWork(t, s.stream, batch)
  {
    forall id | id in batch ensures id < |s.stream| && id !in t.acked && !Settled(t, id) {
      if Pending(s) == {} {
        var k :| 0 <= k < |batch| && batch[k] == id;
      } else {
        assert id in Pending(s);
      }
    }
    if k :| 0 <= k < |batch| && batch[k] < |s.stream| && s.stream[batch[k]].Rebuilt? {
      assert batch[k] in batch && IsRebuild(s.stream, batch[k]);
    }
  }

  /** Outside the server the batch does not change hands, and the stream only grows. */
  lemma WorldLeavesBatch(s: State, step: Step, stream: seq<Event>, batch: seq<nat>)
    requires Inv(s) && AtWork(s, stream, batch) && Enabled(s, step) && !IsServerStep(step)
    ensures AtWork(Next(s, step), stream, batch)
  {
    var t := Next(s, step);
    WorldGrows(s, step);
    forall id | id in batch ensures IsRebuild(t.stream, id) <==> IsRebuild(s.stream, id) {
      assert id < |stream|;
    }
    forall id | id in batch ensures Settled(t, id) <==> Settled(s, id) {
    }
  }

  lemma AckSettles(s: State, stream: seq<Event>, batch: seq<nat>)
    requires Inv(s) && AtWork(s, stream, batch) && Enabled(s, AckNext(true))
    ensures AtWork(Next(s, AckNext(true)), stream, batch)
  {
    var t, r := Next(s, AckNext(true)), s.server.refresh;
    var now := batch[r.next];
    forall id | id in batch ensures id in t.acked <==> Settled(t, id) {
      if id == now && (r.reloadSucceeded || !IsRebuild(s.stream, id)) {
        assert Passed(t.stream, batch, r.reloadSucceeded, r.next + 1, id);
      } else if k :| 0 <= k < |batch| && k < r.next + 1 && batch[k] == id && (r.reloadSucceeded || !IsRebuild(s.stream, id)) {
        assert k < r.next;
        assert Passed(s.stream, batch, r.reloadSucceeded, r.next, id);
      }
    }
  }

  lemma LoadingSettlesNothing(s: State, step: Step, stream: seq<Event>, batch: seq<nat>)
    requires Inv(s) && AtWork(s, stream, batch) && Enabled(s, step) && Works(step) && IsServerStep(step) && !step.AckNext?
    ensures AtWork(Next(s, step), stream, batch)
  {
    var t := Next(s, step);
    assert t.acked == s.acked && t.stream == s.stream;
    forall id | id in batch ensures !Settled(s, id) && !Settled(t, id) {
    }
  }

  lemma WorkGoesOn(s: State, step: Step, t: State, stream: seq<Event>, batch: seq<nat>)
    requires Inv(s) && AtWork(s, stream, batch) && Moves(s, step, t) && Works(step)
    ensures AtWork(t, stream, batch)
  {
    if !IsServerStep(step) {
      WorldLeavesBatch(s, step, stream, batch);
    } else if step.AckNext? {
      AckSettles(s, stream, batch);
    } else {
      LoadingSettlesNothing(s, step, stream, batch);
    }
  }

  lemma {:induction false} BatchGoesOn(states: seq<State>, steps: seq<Step>, batch: seq<nat>, j: nat, m: nat)
    requires Run(states, steps) && j < m <= |steps| && steps[j] == ReadBatch(batch)
    requires forall i :: j < i < m ==> Works(steps[i])
    ensures AtWork(states[m], states[j].stream, batch)
  {
    var before, step, after := states[m - 1], steps[m - 1], states[m];
    var stream := states[j].stream;
    assert Moves(before, step, after);
    RunKeepsInv(states, steps, m - 1);
    if m == j + 1 {
      ReadBegins(before, batch, after);
    } else {
      BatchGoesOn(states, steps, batch, j, m - 1);
      WorkGoesOn(before, step, after, stream, batch);
    }
  }

  /**
   When a batch ends, all of whose acknowledgements went through, every event in it that
   is no rebuild is acknowledged, whatever the reload did; a rebuild is acknowledged
   exactly when the reload succeeded, and otherwise is as pending as it was when read. A
   batch without a rebuild needs no reload and is acknowledged whole.
   */
  lemma BatchEnds(states: seq<State>, steps: seq<Step>, batch: seq<nat>, j: nat, m: nat)
    requires Run(states, steps) && j < m < |steps| && steps[j] == ReadBatch(batch) && steps[m] == EndAcks
    requires forall i :: j < i < m ==> Works(steps[i])
    ensures states[m].server.Up? && states[m].server.refresh.Acking?
    ensures var stream, ok := states[j].stream, states[m].server.refresh.reloadSucceeded;
      && (forall id :: id in batch ==> id < |stream| && id !in states[j].acked)
      && (forall id :: id in batch && id < |stream| ==>
            (id in states[m + 1].acked <==> ok || !stream[id].Rebuilt?))
      && ((forall id :: id in batch && id < |stream| ==> !stream[id].Rebuilt?) ==> ok)
  {
    BatchGoesOn(states, steps, batch, j, m);
    RunKeepsInv(states, steps, j);
    assert Moves(states[j], steps[j], states[j + 1]) && Moves(states[m], steps[m], states[m + 1]);
    var s, stream := states[m], states[j].stream;
    var r := s.server.refresh;
    forall id | id in batch ensures id < |stream| && id !in states[j].acked {
      if Pending(states[j]) == {} {
        var k :| 0 <= k < |batch| && batch[k] == id;
      } else {
        assert id in Pending(states[j]);
      }
    }
    forall id | id in batch && id < |stream| ensures id in s.acked <==> r.reloadSucceeded || !stream[id].Rebuilt? {
      var k :| 0 <= k < |batch| && batch[k] == id;
      assert Settled(s, id) <==> r.reloadSucceeded || !IsRebuild(s.stream, id);
    }
    if !HoldsRebuild(stream, batch) {
      assert r.reloadSucceeded;
    } else {
      var id :| id in batch && IsRebuild(stream, id);
    }
  }
}
