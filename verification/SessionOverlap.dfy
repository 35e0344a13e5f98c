/**
 When a session's index lists a key that has no entry: exactly which overlap of a write
 and a clear leaves one behind.
 */
module SessionOverlap {
  import opened SessionIndex

  // ---- When the index lists a key that has no entry ----

  ghost predicate Stale<E>(s: State<E>, session: string, key: string) {
    Listed(s, session, key) && key !in s.inner
  }

  predicate Inserts<E>(step: Step<E>, key: string) {
    step.InsertEntry? && step.key == key
  }

  predicate Removes<E>(step: Step<E>, key: string) {
    step.RemoveEntry? && step.key == key
  }

  predicate Takes<E>(step: Step<E>, session: string) {
    step.TakeIndex? && step.session == session
  }

  ghost predicate Lists<E>(s: State<E>, step: Step<E>, session: string, key: string) {
    step.InsertIndex? && step.call in s.calls && s.calls[step.call] == Recording(session, key)
  }

  /** The key was inserted at step `i` and not removed since. */
  ghost predicate EntrySurvives<E>(steps: seq<Step<E>>, key: string, i: nat, k: nat)
    requires k <= |steps|
  {
    i < k && Inserts(steps[i], key) && forall j :: i < j < k ==> !Removes(steps[j], key)
  }

  /** The key was listed at step `x` and its session's index not taken since. */
  ghost predicate ListingSurvives<E>(states: seq<State<E>>, steps: seq<Step<E>>, session: string, key: string, x: nat, k: nat)
    requires |states| == |steps| + 1 && k <= |steps|
  {
    x < k && Lists(states[x], steps[x], session, key) && forall j :: x < j < k ==> !Takes(steps[j], session)
  }

  lemma {:induction false} StoredIffInserted<E>(states: seq<State<E>>, steps: seq<Step<E>>, key: string, k: nat)
    requires Run(states, steps) && states[0] == State(map[], map[], map[]) && k <= |steps|
    ensures key in states[k].inner <==> exists i :: EntrySurvives(steps, key, i, k)
  {
    if k > 0 {
      var s, step := states[k - 1], steps[k - 1];
      StoredIffInserted(states, steps, key, k - 1);
      assert Moves(s, step, states[k]);
      if Inserts(step, key) {
        assert EntrySurvives(steps, key, k - 1, k);
      } else if key in states[k].inner {
        var i :| EntrySurvives(steps, key, i, k - 1);
        assert EntrySurvives(steps, key, i, k);
      } else if i :| EntrySurvives(steps, key, i, k) {
        assert EntrySurvives(steps, key, i, k - 1);
      }
    }
  }

  lemma {:induction false} ListedIffRecorded<E>(states: seq<State<E>>, steps: seq<Step<E>>, session: string, key: string, k: nat)
    requires Run(states, steps) && states[0] == State(map[], map[], map[]) && k <= |steps|
    ensures Listed(states[k], session, key) <==> exists x :: ListingSurvives(states, steps, session, key, x, k)
  {
    if k > 0 {
      var s, step := states[k - 1], steps[k - 1];
      ListedIffRecorded(states, steps, session, key, k - 1);
      assert Moves(s, step, states[k]);
      if Lists(s, step, session, key) {
        assert ListingSurvives(states, steps, session, key, k - 1, k);
      } else if Listed(states[k], session, key) {
        var x :| ListingSurvives(states, steps, session, key, x, k - 1);
        assert ListingSurvives(states, steps, session, key, x, k);
      } else if x :| ListingSurvives(states, steps, session, key, x, k) {
        assert ListingSurvives(states, steps, session, key, x, k - 1);
      }
    }
  }

  /** The `record_local` call that ends at step `x` wrote its entry at step `i`. */
  ghost predicate RecordSpans<E>(states: seq<State<E>>, steps: seq<Step<E>>, session: string, key: string, i: nat, x: nat)
    requires |states| == |steps| + 1
  {
    && i < x < |steps|
    && Lists(states[x], steps[x], session, key)
    && steps[i].InsertEntry? && steps[i].call == steps[x].call && steps[i].session == session && steps[i].key == key
    && forall j :: i < j <= x ==> steps[x].call in states[j].calls && states[j].calls[steps[x].call] == Recording(session, key)
  }

  ghost predicate ClearingFor<E>(s: State<E>, call: nat, session: string) {
    call in s.calls && s.calls[call].Clearing? && s.calls[call].session == session
  }

  ghost predicate RecordingFor<E>(s: State<E>, call: nat, session: string) {
    call in s.calls && s.calls[call].Recording? && s.calls[call].session == session
  }

  /** The `clear_session` call that removes the key at step `r` took the index at step `t`. */
  ghost predicate ClearSpans<E>(states: seq<State<E>>, steps: seq<Step<E>>, session: string, key: string, t: nat, r: nat)
    requires |states| == |steps| + 1
  {
    && t < r < |steps|
    && Removes(steps[r], key)
    && Takes(steps[t], session) && steps[t].call == steps[r].call
    && forall j :: t < j <= r ==> ClearingFor(states[j], steps[r].call, session)
  }

  lemma {:induction false} RecordBegan<E>(states: seq<State<E>>, steps: seq<Step<E>>, call: nat, session: string, key: string, k: nat)
    returns (i: nat)
    requires Run(states, steps) && states[0] == State(map[], map[], map[]) && k <= |steps|
    requires call in states[k].calls && states[k].calls[call] == Recording(session, key)
    ensures i < k && steps[i].InsertEntry? && steps[i].call == call && steps[i].session == session && steps[i].key == key
    ensures forall j :: i < j <= k ==> call in states[j].calls && states[j].calls[call] == Recording(session, key)
  {
    assert Moves(states[k - 1], steps[k - 1], states[k]);
    if call in states[k - 1].calls {
      i := RecordBegan(states, steps, call, session, key, k - 1);
    } else {
      i := k - 1;
    }
  }

  lemma {:induction false} ClearBegan<E>(states: seq<State<E>>, steps: seq<Step<E>>, call: nat, session: string, k: nat)
    returns (t: nat)
    requires Run(states, steps) && states[0] == State(map[], map[], map[]) && k <= |steps|
    requires ClearingFor(states[k], call, session)
    ensures t < k && Takes(steps[t], session) && steps[t].call == call
    ensures forall j :: t < j <= k ==> ClearingFor(states[j], call, session)
  {
    assert Moves(states[k - 1], steps[k - 1], states[k]);
    if call in states[k - 1].calls {
      t := ClearBegan(states, steps, call, session, k - 1);
    } else {
      t := k - 1;
    }
  }

  lemma {:induction false} LastInsert<E>(steps: seq<Step<E>>, key: string, i: nat, k: nat) returns (last: nat)
    requires i < k <= |steps| && Inserts(steps[i], key)
    ensures i <= last < k && Inserts(steps[last], key)
    ensures forall j :: last < j < k ==> !Inserts(steps[j], key)
  {
    if Inserts(steps[k - 1], key) {
      last := k - 1;
    } else {
      last := LastInsert(steps, key, i, k - 1);
    }
  }

  /**
   A write of the key and a clear that removes it overlap: the write has stored when the
   clear removes, no clear of the write's own session takes the index after the write has
   listed, and no later write stores the key again. The clear is one of the write's own
   session, or of another session under which the same key was listed.
   */
  ghost predicate Overlap<E>(states: seq<State<E>>, steps: seq<Step<E>>, session: string, other: string, key: string,
                             i: nat, x: nat, t: nat, r: nat, k: nat)
    requires |states| == |steps| + 1 && k <= |steps|
  {
    && RecordSpans(states, steps, session, key, i, x) && ClearSpans(states, steps, other, key, t, r)
    && x < k && r < k
    && i < r && (other == session ==> t < x)
    && (forall j :: x < j < k ==> !Takes(steps[j], session))
    && (forall j :: r < j < k ==> !Inserts(steps[j], key))
  }

  ghost predicate Overlapped<E>(states: seq<State<E>>, steps: seq<Step<E>>, session: string, key: string, k: nat)
    requires |states| == |steps| + 1 && k <= |steps|
  {
    exists other, i: nat, x: nat, t: nat, r: nat :: Overlap(states, steps, session, other, key, i, x, t, r, k)
  }

  lemma OverlapLeavesStale<E>(states: seq<State<E>>, steps: seq<Step<E>>, session: string, other: string, key: string,
                              i: nat, x: nat, t: nat, r: nat, k: nat)
    requires Run(states, steps) && states[0] == State(map[], map[], map[]) && k <= |steps|
    requires Overlap(states, steps, session, other, key, i, x, t, r, k)
    ensures Stale(states[k], session, key)
  {
    ListedIffRecorded(states, steps, session, key, k);
    assert ListingSurvives(states, steps, session, key, x, k);
    StoredIffInserted(states, steps, key, k);
    assert forall m: nat :: !EntrySurvives(steps, key, m, k);
  }

  lemma StaleHasOverlap<E>(states: seq<State<E>>, steps: seq<Step<E>>, session: string, key: string, k: nat)
    returns (other: string, i: nat, x: nat, t: nat, r: nat)
    requires Run(states, steps) && states[0] == State(map[], map[], map[]) && k <= |steps|
    requires Stale(states[k], session, key)
    ensures Overlap(states, steps, session, other, key, i, x, t, r, k)
    ensures InHand(states[r], steps[r].call, key) && states[r].calls[steps[r].call].session == other
  {
    ListedIffRecorded(states, steps, session, key, k);
    x :| ListingSurvives(states, steps, session, key, x, k);
    i := RecordBegan(states, steps, steps[x].call, session, key, x);
    var last := LastInsert(steps, key, i, k);
    StoredIffInserted(states, steps, key, k);
    assert !EntrySurvives(steps, key, last, k);
    r :| last < r < k && Removes(steps[r], key);
    assert Moves(states[r], steps[r], states[r + 1]);
    other := states[r].calls[steps[r].call].session;
    t := ClearBegan(states, steps, steps[r].call, other, r);
  }

  /**
   In every interleaving, whatever the keys name, a session's index lists a key that has
   no entry exactly when a write of the key and a clear overlapped so. Without such
   overlaps the index is a mirror in this direction too.
   */
  lemma StaleIffOverlap<E>(states: seq<State<E>>, steps: seq<Step<E>>, session: string, key: string, k: nat)
    requires Run(states, steps) && states[0] == State(map[], map[], map[]) && k <= |steps|
    ensures Stale(states[k], session, key) <==> Overlapped(states, steps, session, key, k)
  {
    if Stale(states[k], session, key) {
      var other, i, x, t, r := StaleHasOverlap(states, steps, session, key, k);
    } else if Overlapped(states, steps, session, key, k) {
      var other, i: nat, x: nat, t: nat, r: nat :| Overlap(states, steps, session, other, key, i, x, t, r, k);
      OverlapLeavesStale(states, steps, session, other, key, i, x, t, r, k);
    }
  }

  // ---- Calls that do not overlap ----

  /** No write of a session begins during a clear of it, and no clear during a write. */
  ghost predicate SerialStep<E>(s: State<E>, step: Step<E>) {
    && (step.InsertEntry? ==> forall call :: !ClearingFor(s, call, step.session))
    && (step.TakeIndex? ==> forall call :: !RecordingFor(s, call, step.session))
  }

  lemma OverlapIsNotSerial<E>(states: seq<State<E>>, steps: seq<Step<E>>, session: string, key: string,
                              i: nat, x: nat, t: nat, r: nat, k: nat) returns (m: nat)
    requires |states| == |steps| + 1 && k <= |steps| && Overlap(states, steps, session, session, key, i, x, t, r, k)
    ensures m < k && !SerialStep(states[m], steps[m])
  {
    if t < i {
      m := i;
      assert ClearingFor(states[i], steps[r].call, session);
    } else {
      m := t;
      assert RecordingFor(states[t], steps[x].call, session);
    }
  }

  /**
   If calls for one session never overlap, a listed key has no entry exactly when a clear
   of another session, under which the same key was listed, has removed it.
   */
  lemma SerialStaleIffShared<E>(states: seq<State<E>>, steps: seq<Step<E>>, session: string, key: string, k: nat)
    requires Run(states, steps) && states[0] == State(map[], map[], map[]) && k <= |steps|
    requires forall m :: 0 <= m < k ==> SerialStep(states[m], steps[m])
    ensures Stale(states[k], session, key) <==>
      exists other, i: nat, x: nat, t: nat, r: nat ::
        other != session && Overlap(states, steps, session, other, key, i, x, t, r, k)
  {
    if Stale(states[k], session, key) {
      var other, i, x, t, r := StaleHasOverlap(states, steps, session, key, k);
      if other == session {
        var m := OverlapIsNotSerial(states, steps, session, key, i, x, t, r, k);
      }
    } else if other, i: nat, x: nat, t: nat, r: nat :|
      other != session && Overlap(states, steps, session, other, key, i, x, t, r, k)
    {
      OverlapLeavesStale(states, steps, session, other, key, i, x, t, r, k);
    }
  }

  /** Whoever lists or holds the key does so for this session. */
  ghost predicate OnlyUnder<E>(s: State<E>, session: string, key: string) {
    && (forall other :: Listed(s, other, key) ==> other == session)
    && (forall call :: InHand(s, call, key) ==> s.calls[call].session == session)
  }

  /** Every write of the key among the first `k` steps is one of this session. */
  ghost predicate WrittenOnlyFor<E>(steps: seq<Step<E>>, session: string, key: string, k: nat)
    requires k <= |steps|
  {
    forall j :: 0 <= j < k && Inserts(steps[j], key) ==> steps[j].session == session
  }

  lemma {:induction false} StaysOnlyUnder<E>(states: seq<State<E>>, steps: seq<Step<E>>, session: string, key: string, k: nat)
    requires Run(states, steps) && states[0] == State(map[], map[], map[]) && k <= |steps|
    requires WrittenOnlyFor(steps, session, key, k)
    ensures OnlyUnder(states[k], session, key)
  {
    if k > 0 {
      StaysOnlyUnder(states, steps, session, key, k - 1);
      var s, step, t := states[k - 1], steps[k - 1], states[k];
      assert Moves(s, step, t);
      forall call | InHand(t, call, key) ensures t.calls[call].session == session {
        if step.TakeIndex? && step.call == call {
          assert Listed(s, step.session, key);
        } else if step.InsertEntry? && step.call == call {
          assert Inserts(step, key);
        } else {
          assert InHand(s, call, key);
        }
      }
      forall other | Listed(t, other, key) ensures other == session {
        if Lists(s, step, other, key) {
          assert InHand(s, step.call, key);
        } else {
          assert Listed(s, other, key);
        }
      }
    }
  }

  /**
   If calls for one session never overlap, every listed key that this session alone has
   written has an entry, at every point of the run.
   */
  lemma SerialSessionsMirror<E>(states: seq<State<E>>, steps: seq<Step<E>>, session: string, key: string, k: nat)
    requires Run(states, steps) && states[0] == State(map[], map[], map[]) && k <= |steps|
    requires WrittenOnlyFor(steps, session, key, k) && Listed(states[k], session, key)
    requires forall m :: 0 <= m < k ==> SerialStep(states[m], steps[m])
    ensures key in states[k].inner
  {
    if Stale(states[k], session, key) {
      var other, i, x, t, r := StaleHasOverlap(states, steps, session, key, k);
      StaysOnlyUnder(states, steps, session, key, r);
      var m := OverlapIsNotSerial(states, steps, session, key, i, x, t, r, k);
    }
  }

  // ---- Runs that leave an absent key listed ----

  /** A write that nothing interrupts, though other calls may be under way. */
  lemma RecordAtOnce<E>(s: State<E>, call: nat, session: string, key: string, e: E) returns (mid: State<E>, t: State<E>)
    requires call !in s.calls
    ensures Moves(s, InsertEntry(call, session, key, e), mid) && Moves(mid, InsertIndex(call), t)
    ensures t == State(s.inner[key := e], s.index[session := IndexOf(s.index, session) + {key}], s.calls)
    ensures s.calls == map[] ==> SerialStep(s, InsertEntry(call, session, key, e))
  {
    mid := Next(s, InsertEntry(call, session, key, e));
    assert mid.calls[call] == Recording(session, key);
    t := Next(mid, InsertIndex(call));
    assert t.calls == s.calls;
  }

  /** The rest of a clear that holds one key, when nothing interrupts. */
  lemma FinishClear<E>(s: State<E>, call: nat, session: string, key: string) returns (mid: State<E>, t: State<E>)
    requires s.calls == map[call := Clearing(session, {key})]
    ensures Moves(s, RemoveEntry(call, key), mid) && Moves(mid, EndClear(call), t)
    ensures t == State(s.inner - {key}, s.index, map[])
  {
    mid := Next(s, RemoveEntry(call, key));
    assert {key} - {key} == {};
    assert mid.calls == map[call := Clearing(session, {})];
    t := Next(mid, EndClear(call));
  }

  /**
   The condition on the key is needed: with unchecked ids two sessions may share a key,
   and a clear of one, overlapping nothing, leaves the other listing what it removed.
   */
  lemma SharedKeysNeedNoOverlap<E>(e: E) returns (states: seq<State<E>>, steps: seq<Step<E>>)
    ensures Run(states, steps) && states[0] == State(map[], map[], map[])
    ensures forall m :: 0 <= m < |steps| ==> SerialStep(states[m], steps[m])
    ensures states[|steps|].calls == map[] && Stale(states[|steps|], "a", "a::b::r")
  {
    var s0: State<E> := State(map[], map[], map[]);
    var s1, s2 := RecordAtOnce(s0, 0, "a", "a::b::r", e);
    var s3, s4 := RecordAtOnce(s2, 1, "a::b", "a::b::r", e);
    var s5 := Next(s4, TakeIndex(2, "a::b"));
    assert IndexOf(s4.index, "a::b") == {"a::b::r"};
    assert s5.calls == map[2 := Clearing("a::b", {"a::b::r"})];
    var s6, s7 := FinishClear(s5, 2, "a::b", "a::b::r");
    states := [s0, s1, s2, s3, s4, s5, s6, s7];
    steps := [InsertEntry(0, "a", "a::b::r", e), InsertIndex(0), InsertEntry(1, "a::b", "a::b::r", e), InsertIndex(1),
              TakeIndex(2, "a::b"), RemoveEntry(2, "a::b::r"), EndClear(2)];
    assert Moves(s4, TakeIndex(2, "a::b"), s5) && SerialStep(s4, TakeIndex(2, "a::b"));
    assert Listed(s7, "a", "a::b::r");
  }

  /** Such an overlap can happen: a write slips between a clear's two phases. */
  lemma IndexMayListAbsentKeys<E>(e: E) returns (states: seq<State<E>>, steps: seq<Step<E>>)
    ensures Run(states, steps) && states[0] == State(map[], map[], map[])
    ensures var s := states[|steps|];
      s.calls == map[] && Listed(s, "s", "s::k") && "s::k" !in s.inner
  {
    var s0: State<E> := State(map[], map[], map[]);
    var s1, s2 := RecordAtOnce(s0, 0, "s", "s::k", e);
    var s3 := Next(s2, TakeIndex(1, "s"));
    assert IndexOf(s2.index, "s") == {"s::k"};
    assert s3.calls == map[1 := Clearing("s", {"s::k"})];
    var s4, s5 := RecordAtOnce(s3, 2, "s", "s::k", e);
    var s6, s7 := FinishClear(s5, 1, "s", "s::k");
    states := [s0, s1, s2, s3, s4, s5, s6, s7];
    steps := [InsertEntry(0, "s", "s::k", e), InsertIndex(0), TakeIndex(1, "s"), InsertEntry(2, "s", "s::k", e), InsertIndex(2),
              RemoveEntry(1, "s::k"), EndClear(1)];
    assert Moves(s2, TakeIndex(1, "s"), s3);
    assert Listed(s7, "s", "s::k");
  }
}
