/**
 The two loops of the live graph refresh: `drain_published_events`
 (crates/graph-builder/src/main.rs) and the acknowledgement loop of `process_batch`
 (crates/mcp-server/src/graph_refresh_subscriber.rs). Each takes the protocol's machine
 through the steps it stands for.
 */
module GraphLoops {
  import opened Wrappers
  import opened GraphRefresh

  // ---- The two loops of the program follow the machine ----

  /** The highest version named by a published prefix, as the drain loop accumulates it. */
  function HighestVersion(events: seq<Event>): Option<nat> {
    if events == [] then None
    else NoteVersion(HighestVersion(events[..|events| - 1]), events[|events| - 1])
  }

  lemma {:induction false} HighestVersionIsMaximal(events: seq<Event>)
    ensures HighestVersion(events).Some? <==> exists e :: e in events && e.Rebuilt?
    ensures HighestVersion(events).Some? ==> Rebuilt(HighestVersion(events).value) in events
    ensures HighestVersion(events).Some? ==> forall e :: e in events ==> AtMost(e, HighestVersion(events).value)
  {
    if events != [] {
      var init, last := events[..|events| - 1], events[|events| - 1];
      assert events == init + [last];
      HighestVersionIsMaximal(init);
    }
  }

  /** What the machine holds while the drain loop has published `count` events. */
  ghost predicate Draining(s: State, t: State, published: seq<Event>, left: seq<Event>) {
    && t.durable == s.durable
    && t.stream == s.stream + published
    && t.builder.buffer == left
    && t.builder.phase == AtDrain(HighestVersion(published))
    && t.builder.lastPublished == s.builder.lastPublished
  }

  ghost predicate Drained(s: State, t: State, stream: seq<Event>, left: seq<Event>, maxPublished: Option<nat>) {
    && t.stream == stream
    && t.builder.buffer == left
    && t.builder.phase == AtReplay
    && t.builder.lastPublished
         == if maxPublished.Some? then Max(s.builder.lastPublished, maxPublished.value) else s.builder.lastPublished
  }

  /** The drain loop after `n` confirmed publishes, and the machine beside it. */
  ghost predicate DrainLoop(s: State, steps: seq<Step>, t: State, events: seq<Event>, n: nat) {
    n <= |events| && After(s, steps) == Some(t) && Draining(s, t, events[..n], events[n..])
  }

  lemma DrainStarts(s: State, events: seq<Event>)
    requires s.builder.phase == AtDrain(None) && s.builder.buffer == events
    ensures DrainLoop(s, [], s, events, 0)
  {
    assert events[..0] == [] && events[0..] == events && s.stream + [] == s.stream;
  }

  lemma DrainConfirms(s: State, steps: seq<Step>, t: State, events: seq<Event>, n: nat)
    requires s.durable.contents != [] && DrainLoop(s, steps, t, events, n) && n < |events|
    ensures Enabled(t, PublishNext(Confirmed))
    ensures DrainLoop(s, steps + [PublishNext(Confirmed)], Next(t, PublishNext(Confirmed)), events, n + 1)
    ensures HighestVersion(events[..n + 1]) == NoteVersion(HighestVersion(events[..n]), events[n])
  {
    assert events[..n + 1] == events[..n] + [events[n]] && events[..n + 1][..n] == events[..n];
    AfterNext(s, steps, t, PublishNext(Confirmed));
  }

  lemma DrainStops(s: State, steps: seq<Step>, t: State, events: seq<Event>, n: nat, outcome: PublishOutcome)
    requires s.durable.contents != [] && DrainLoop(s, steps, t, events, n) && n < |events| && !outcome.Confirmed?
    ensures Enabled(t, PublishNext(outcome))
    ensures After(s, steps + [PublishNext(outcome)]) == Some(Next(t, PublishNext(outcome)))
    ensures Drained(s, Next(t, PublishNext(outcome)),
                    s.stream + events[..n] + (if outcome.ReplyLost? then [events[n]] else []),
                    events[n..], HighestVersion(events[..n]))
  {
    AfterNext(s, steps, t, PublishNext(outcome));
  }

  lemma DrainEnds(s: State, steps: seq<Step>, t: State, events: seq<Event>)
    requires s.durable.contents != [] && DrainLoop(s, steps, t, events, |events|)
    ensures Enabled(t, EndDrain) && After(s, steps + [EndDrain]) == Some(Next(t, EndDrain))
    ensures Drained(s, Next(t, EndDrain), s.stream + events, [], HighestVersion(events))
  {
    assert events[..|events|] == events;
    AfterNext(s, steps, t, EndDrain);
  }

  /** The first publish at or after `k` that is not confirmed, or `n`. */
  function ConfirmedRun(outcomes: nat -> PublishOutcome, k: nat, n: nat): (count: nat)
    requires k <= n
    ensures k <= count <= n
    ensures forall i: nat :: k <= i < count ==> outcomes(i).Confirmed?
    ensures count < n ==> !outcomes(count).Confirmed?
    decreases n - k
  {
    if k < n && outcomes(k).Confirmed? then ConfirmedRun(outcomes, k + 1, n) else k
  }

  lemma PrefixGrows(stream: seq<Event>, events: seq<Event>, n: nat)
    requires n < |events|
    ensures stream + events[..n] + [events[n]] == stream + events[..n + 1]
  {
    assert events[..n + 1] == events[..n] + [events[n]];
  }

  /**
   `drain_published_events`: publishes the buffer in order up to the first error and
   drops exactly the confirmed prefix. It takes the machine through a whole drain.
   */
  method DrainPublishedEvents(ghost s: State, publishedEvents: seq<Event>, stream: seq<Event>, outcomes: nat -> PublishOutcome)
    returns (newStream: seq<Event>, left: seq<Event>, maxPublished: Option<nat>, ghost steps: seq<Step>)
    requires s.durable.contents != [] && s.builder.phase == AtDrain(None)
    requires s.stream == stream && s.builder.buffer == publishedEvents
    ensures After(s, steps).Some? && Drained(s, After(s, steps).value, newStream, left, maxPublished)
    ensures var count := ConfirmedRun(outcomes, 0, |publishedEvents|);
      && left == publishedEvents[count..] && maxPublished == HighestVersion(publishedEvents[..count])
      && newStream == stream + publishedEvents[..count]
           + if count < |publishedEvents| && outcomes(count).ReplyLost? then [publishedEvents[count]] else []
  {
    var publishedCount: nat := 0;
    newStream, maxPublished, steps := stream, None, [];
    ghost var t := s;
    DrainStarts(s, publishedEvents);
    while publishedCount < |publishedEvents|
      invariant publishedCount <= |publishedEvents|
      invariant ConfirmedRun(outcomes, 0, |publishedEvents|) == ConfirmedRun(outcomes, publishedCount, |publishedEvents|)
      invariant newStream == stream + publishedEvents[..publishedCount]
      invariant maxPublished == HighestVersion(publishedEvents[..publishedCount])
      invariant DrainLoop(s, steps, t, publishedEvents, publishedCount)
    {
      var envelope, outcome := publishedEvents[publishedCount], outcomes(publishedCount);
      if !outcome.Confirmed? {
        assert ConfirmedRun(outcomes, publishedCount, |publishedEvents|) == publishedCount;
        DrainStops(s, steps, t, publishedEvents, publishedCount, outcome);
        steps := steps + [PublishNext(outcome)];
        newStream := newStream + if outcome.ReplyLost? then [envelope] else [];
        left := publishedEvents[publishedCount..];
        return;
      }
      DrainConfirms(s, steps, t, publishedEvents, publishedCount);
      steps, t := steps + [PublishNext(Confirmed)], Next(t, PublishNext(Confirmed));
      PrefixGrows(stream, publishedEvents, publishedCount);
      newStream := newStream + [envelope];
      maxPublished := NoteVersion(maxPublished, envelope);
      publishedCount := publishedCount + 1;
    }
    DrainEnds(s, steps, t, publishedEvents);
    steps := steps + [EndDrain];
    left := publishedEvents[publishedCount..];
  }

  /** The id is no rebuild event's: no failed reload holds its acknowledgement back. */
  predicate NoRebuild(stream: seq<Event>, id: nat) {
    id < |stream| ==> stream[id] == OtherEvent
  }

  /** Position `k` of the batch is acknowledged: no failed reload forbids it and the call goes through. */
  predicate AckGoesThrough(stream: seq<Event>, batch: seq<nat>, reloadSucceeded: bool, ackOk: nat -> bool, k: nat)
    requires k < |batch|
  {
    ackOk(k) && (reloadSucceeded || NoRebuild(stream, batch[k]))
  }

  /** The ids one pass of the acknowledgement loop acknowledges. */
  ghost function Acknowledged(stream: seq<Event>, batch: seq<nat>, reloadSucceeded: bool, ackOk: nat -> bool): set<nat> {
    set k | 0 <= k < |batch| && AckGoesThrough(stream, batch, reloadSucceeded, ackOk, k) :: batch[k]
  }

  /**
   The acknowledgement loop of `process_batch`. After a reload that succeeded, an id is
   acknowledged exactly when the call for one of its positions goes through; after one
   that failed, exactly when moreover its event is no rebuild. The loop takes the machine
   through the whole batch.
   */
  method AckBatch(ghost s: State, stream: seq<Event>, batch: seq<nat>, reloadSucceeded: bool, ackOk: nat -> bool,
                  acked: set<nat>)
    returns (newAcked: set<nat>, ghost steps: seq<Step>)
    requires s.durable.contents != [] && s.stream == stream && s.acked == acked
    requires s.server.Up? && s.server.refresh == Acking(batch, reloadSucceeded, 0)
    ensures reloadSucceeded ==> forall id ::
      id in newAcked <==> id in acked || (exists k :: 0 <= k < |batch| && batch[k] == id && ackOk(k))
    ensures !reloadSucceeded ==> forall id ::
      id in newAcked <==>
        id in acked
        || (exists k :: 0 <= k < |batch| && batch[k] == id && ackOk(k) && !(id < |stream| && stream[id].Rebuilt?))
    ensures After(s, steps) == Some(s.(acked := newAcked, server := Up(s.server.served, Idle)))
  {
    newAcked, steps := acked, [];
    ghost var t := s;
    var k := 0;
    while k < |batch|
      invariant 0 <= k <= |batch|
      invariant newAcked == acked + Acknowledged(stream, batch[..k], reloadSucceeded, ackOk)
      invariant AckLoop(s, steps, t, newAcked, batch, reloadSucceeded, k)
    {
      var message, ok := batch[k], ackOk(k);
      AcknowledgedNext(stream, batch, reloadSucceeded, ackOk, k);
      AckLoopNext(s, steps, t, newAcked, batch, reloadSucceeded, k, ok);
      steps, t := steps + [AckNext(ok)], Next(t, AckNext(ok));
      k := k + 1;
      if MustReplay(stream, message, reloadSucceeded) {
        continue;
      }
      if ok {
        newAcked := newAcked + {message};
      }
    }
    assert batch[..k] == batch;
    forall id: nat
      ensures reloadSucceeded ==>
        (id in newAcked <==> id in acked || exists k :: 0 <= k < |batch| && batch[k] == id && ackOk(k))
      ensures !reloadSucceeded ==>
        (id in newAcked <==>
           id in acked
           || (exists k :: 0 <= k < |batch| && batch[k] == id && ackOk(k) && !(id < |stream| && stream[id].Rebuilt?)))
    {
      AcknowledgedMembers(stream, batch, reloadSucceeded, ackOk, id);
    }
    AfterNext(s, steps, t, EndAcks);
    steps := steps + [EndAcks];
  }

  /** The machine beside the acknowledgement loop after `k` messages. */
  ghost predicate AckLoop(s: State, steps: seq<Step>, t: State, acked: set<nat>, batch: seq<nat>, reloadSucceeded: bool, k: nat)
    requires s.server.Up?
  {
    && After(s, steps) == Some(t)
    && t == s.(acked := acked, server := Up(s.server.served, Acking(batch, reloadSucceeded, k)))
  }

  lemma AckLoopNext(s: State, steps: seq<Step>, t: State, acked: set<nat>, batch: seq<nat>, reloadSucceeded: bool,
                    k: nat, ok: bool)
    requires s.durable.contents != [] && s.server.Up? && k < |batch|
    requires AckLoop(s, steps, t, acked, batch, reloadSucceeded, k)
    ensures Enabled(t, AckNext(ok))
    ensures AckLoop(s, steps + [AckNext(ok)], Next(t, AckNext(ok)),
                    if ok && !MustReplay(s.stream, batch[k], reloadSucceeded) then acked + {batch[k]} else acked,
                    batch, reloadSucceeded, k + 1)
  {
    assert t.server == Up(s.server.served, Acking(batch, reloadSucceeded, k));
    assert t.stream == s.stream && t.durable == s.durable && t.acked == acked;
    assert Enabled(t, AckNext(ok));
    var after := if ok && !MustReplay(s.stream, batch[k], reloadSucceeded) then acked + {batch[k]} else acked;
    assert Next(t, AckNext(ok)) == s.(acked := after, server := Up(s.server.served, Acking(batch, reloadSucceeded, k + 1)));
    AfterNext(s, steps, t, AckNext(ok));
  }

  lemma AcknowledgedNext(stream: seq<Event>, batch: seq<nat>, reloadSucceeded: bool, ackOk: nat -> bool, k: nat)
    requires k < |batch|
    ensures Acknowledged(stream, batch[..k + 1], reloadSucceeded, ackOk)
         == if AckGoesThrough(stream, batch, reloadSucceeded, ackOk, k)
            then Acknowledged(stream, batch[..k], reloadSucceeded, ackOk) + {batch[k]}
            else Acknowledged(stream, batch[..k], reloadSucceeded, ackOk)
  {
    var few, more := batch[..k], batch[..k + 1];
    var before, after := Acknowledged(stream, few, reloadSucceeded, ackOk), Acknowledged(stream, more, reloadSucceeded, ackOk);
    forall i | i in before ensures i in after {
      var j :| 0 <= j < k && AckGoesThrough(stream, few, reloadSucceeded, ackOk, j) && few[j] == i;
      assert AckGoesThrough(stream, more, reloadSucceeded, ackOk, j) && more[j] == i;
    }
    forall i | i in after && i != batch[k] ensures i in before {
      var j :| 0 <= j <= k && AckGoesThrough(stream, more, reloadSucceeded, ackOk, j) && more[j] == i;
      assert AckGoesThrough(stream, few, reloadSucceeded, ackOk, j) && few[j] == i;
    }
    if AckGoesThrough(stream, batch, reloadSucceeded, ackOk, k) {
      assert AckGoesThrough(stream, more, reloadSucceeded, ackOk, k) && more[k] == batch[k];
    } else if batch[k] in after {
      var j :| 0 <= j <= k && AckGoesThrough(stream, more, reloadSucceeded, ackOk, j) && more[j] == batch[k];
      assert j != k && AckGoesThrough(stream, few, reloadSucceeded, ackOk, j) && few[j] == batch[k];
    }
  }

  /** The ids acknowledged, event by event. */
  lemma AcknowledgedMembers(stream: seq<Event>, batch: seq<nat>, reloadSucceeded: bool, ackOk: nat -> bool, id: nat)
    ensures reloadSucceeded ==>
      (id in Acknowledged(stream, batch, reloadSucceeded, ackOk) <==>
        exists k :: 0 <= k < |batch| && batch[k] == id && ackOk(k))
    ensures !reloadSucceeded ==>
      (id in Acknowledged(stream, batch, reloadSucceeded, ackOk) <==>
        exists k :: 0 <= k < |batch| && batch[k] == id && ackOk(k) && !(id < |stream| && stream[id].Rebuilt?))
  {
    forall k | 0 <= k < |batch|
      ensures AckGoesThrough(stream, batch, reloadSucceeded, ackOk, k)
        <==> ackOk(k) && (reloadSucceeded || !(batch[k] < |stream| && stream[batch[k]].Rebuilt?))
    {
    }
  }
}
