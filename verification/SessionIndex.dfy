/**
 The two maps behind both session stores (crates/mcp-server/src/context_cache.rs,
 suppression_state.rs): entries by key, and for each session the keys it owns. Each
 map operation is atomic but `record_local` and `clear_session` are sequences of
 them, so calls interleave. A state machine over the single map operations.
 */
module SessionIndex {

  /** An unfinished call: it has made its first write and not its last. */
  datatype Call =
    | Recording(session: string, key: string)
    | Clearing(session: string, left: set<string>)

  datatype State<E> = State(inner: map<string, E>, index: map<string, set<string>>, calls: map<nat, Call>)

  /** Sessions are given trimmed, as both methods trim before they touch the index. */
  datatype Step<E> =
    | InsertEntry(call: nat, session: string, key: string, entry: E)
    | InsertIndex(call: nat)
    | TakeIndex(call: nat, session: string)
    | RemoveEntry(call: nat, key: string)
    | EndClear(call: nat)

  function IndexOf(index: map<string, set<string>>, session: string): set<string> {
    if session in index then index[session] else {}
  }

  ghost predicate Enabled<E>(s: State<E>, step: Step<E>) {
    match step
    case InsertEntry(call, _, _, _) => call !in s.calls
    case InsertIndex(call) => call in s.calls && s.calls[call].Recording?
    case TakeIndex(call, _) => call !in s.calls
    case RemoveEntry(call, key) => call in s.calls && s.calls[call].Clearing? && key in s.calls[call].left
    case EndClear(call) => call in s.calls && s.calls[call].Clearing? && s.calls[call].left == {}
  }

  ghost function Next<E>(s: State<E>, step: Step<E>): State<E>
    requires Enabled(s, step)
  {
    match step
    case InsertEntry(call, session, key, entry) =>
      s.(inner := s.inner[key := entry], calls := s.calls[call := Recording(session, key)])
    case InsertIndex(call) =>
      var c := s.calls[call];
      s.(index := s.index[c.session := IndexOf(s.index, c.session) + {c.key}], calls := s.calls - {call})
    case TakeIndex(call, session) =>
      s.(index := s.index - {session}, calls := s.calls[call := Clearing(session, IndexOf(s.index, session))])
    case RemoveEntry(call, key) =>
      s.(inner := s.inner - {key}, calls := s.calls[call := s.calls[call].(left := s.calls[call].left - {key})])
    case EndClear(call) => s.(calls := s.calls - {call})
  }

  ghost predicate Moves<E>(s: State<E>, step: Step<E>, t: State<E>) {
    Enabled(s, step) && t == Next(s, step)
  }

  ghost predicate Run<E>(states: seq<State<E>>, steps: seq<Step<E>>) {
    && |states| == |steps| + 1
    && forall k :: 0 <= k < |steps| ==> Moves(states[k], steps[k], states[k + 1])
  }

  // ---- No entry escapes the index ----

  ghost predicate Listed<E>(s: State<E>, session: string, key: string) {
    session in s.index && key in s.index[session]
  }

  ghost predicate InHand<E>(s: State<E>, call: nat, key: string) {
    call in s.calls && match s.calls[call] case Recording(_, k) => k == key case Clearing(_, left) => key in left
  }

  /** The key is listed in some session's index, or an unfinished call holds it. */
  ghost predicate Held<E>(s: State<E>, key: string) {
    (exists session :: Listed(s, session, key)) || (exists call :: InHand(s, call, key))
  }

  ghost predicate NothingEscapes<E>(s: State<E>) {
    forall key :: key in s.inner ==> Held(s, key)
  }

  lemma StepLetsNothingEscape<E>(s: State<E>, step: Step<E>)
    requires NothingEscapes(s) && Enabled(s, step)
    ensures NothingEscapes(Next(s, step))
  {
    var t := Next(s, step);
    forall key | key in t.inner ensures Held(t, key) {
      if step.InsertEntry? && key == step.key {
        assert InHand(t, step.call, key);
      } else if session :| Listed(s, session, key) {
        if step.TakeIndex? && step.session == session {
          assert InHand(t, step.call, key);
        } else {
          assert Listed(t, session, key);
        }
      } else {
        assert Held(s, key);
        var call :| InHand(s, call, key);
        if step.InsertIndex? && step.call == call {
          assert Listed(t, s.calls[call].session, key);
        } else {
          assert InHand(t, call, key);
        }
      }
    }
  }

  // ---- Keys that name their session ----

  /** Every key in sight sits with the session it names. */
  ghost predicate Lawful<E>(s: State<E>, owner: string -> string) {
    && (forall session, key :: Listed(s, session, key) ==> owner(key) == session)
    && (forall call, key :: InHand(s, call, key) ==> owner(key) == s.calls[call].session)
  }

  ghost predicate LawfulStep<E>(step: Step<E>, owner: string -> string) {
    step.InsertEntry? ==> owner(step.key) == step.session
  }

  lemma StepStaysLawful<E>(s: State<E>, step: Step<E>, owner: string -> string)
    requires Lawful(s, owner) && Enabled(s, step) && LawfulStep(step, owner)
    ensures Lawful(Next(s, step), owner)
  {
    var t := Next(s, step);
    forall call, key | InHand(t, call, key) ensures owner(key) == t.calls[call].session {
      if step.TakeIndex? && step.call == call {
        assert Listed(s, step.session, key);
      } else if !(step.InsertEntry? && step.call == call) {
        assert InHand(s, call, key);
      }
    }
    forall session, key | Listed(t, session, key) ensures owner(key) == session {
      if step.InsertIndex? && session == s.calls[step.call].session && key == s.calls[step.call].key {
        assert InHand(s, step.call, key);
      } else {
        assert Listed(s, session, key);
      }
    }
  }

  ghost predicate Inv<E>(s: State<E>, owner: string -> string) {
    NothingEscapes(s) && Lawful(s, owner)
  }

  ghost predicate LawfulRun<E>(states: seq<State<E>>, steps: seq<Step<E>>, owner: string -> string) {
    && Run(states, steps)
    && states[0] == State(map[], map[], map[])
    && forall k :: 0 <= k < |steps| ==> LawfulStep(steps[k], owner)
  }

  lemma {:induction false} RunKeepsInv<E>(states: seq<State<E>>, steps: seq<Step<E>>, owner: string -> string, k: nat)
    requires LawfulRun(states, steps, owner) && k <= |steps|
    ensures Inv(states[k], owner)
  {
    if k > 0 {
      RunKeepsInv(states, steps, owner, k - 1);
      assert Moves(states[k - 1], steps[k - 1], states[k]);
      StepLetsNothingEscape(states[k - 1], steps[k - 1]);
      StepStaysLawful(states[k - 1], steps[k - 1], owner);
    }
  }

  /** Once every call has returned, each entry is listed in the index of its own session. */
  lemma AtRestEverythingIsListed<E>(states: seq<State<E>>, steps: seq<Step<E>>, owner: string -> string, k: nat)
    requires LawfulRun(states, steps, owner) && k <= |steps| && states[k].calls == map[]
    ensures forall key :: key in states[k].inner ==> Listed(states[k], owner(key), key)
  {
    RunKeepsInv(states, steps, owner, k);
    var s := states[k];
    forall key | key in s.inner ensures Listed(s, owner(key), key) {
      assert Held(s, key);
      assert forall call :: !InHand(s, call, key);
      var session :| Listed(s, session, key);
    }
  }

  /** Whatever interleaves, a clear removes entries of its own session only. */
  lemma ClearTouchesOnlyItsSession<E>(states: seq<State<E>>, steps: seq<Step<E>>, owner: string -> string, k: nat)
    requires LawfulRun(states, steps, owner) && k < |steps| && steps[k].RemoveEntry?
    ensures steps[k].call in states[k].calls
    ensures owner(steps[k].key) == states[k].calls[steps[k].call].session
    ensures forall key :: key in states[k].inner && owner(key) != states[k].calls[steps[k].call].session ==>
      key in states[k + 1].inner && states[k + 1].inner[key] == states[k].inner[key]
  {
    RunKeepsInv(states, steps, owner, k);
    assert Moves(states[k], steps[k], states[k + 1]);
    assert InHand(states[k], steps[k].call, steps[k].key);
  }

  // ---- A clear takes effect ----

  /** Nothing can put the key back into an index. */
  ghost predicate Doomed<E>(s: State<E>, key: string) {
    && (forall session :: !Listed(s, session, key))
    && (forall call :: call in s.calls && s.calls[call].Recording? ==> s.calls[call].key != key)
  }

  lemma {:induction false} DoomedStaysDoomed<E>(states: seq<State<E>>, steps: seq<Step<E>>, key: string, i: nat, j: nat)
    requires Run(states, steps) && i <= j <= |steps| && Doomed(states[i], key)
    requires forall k :: i <= k < j ==> !(steps[k].InsertEntry? && steps[k].key == key)
    ensures Doomed(states[j], key)
  {
    if i < j {
      DoomedStaysDoomed(states, steps, key, i, j - 1);
      var s, t := states[j - 1], states[j];
      assert Moves(s, steps[j - 1], t);
      forall session ensures !Listed(t, session, key) {
        assert !Listed(s, session, key);
      }
    }
  }

  /**
   A clear is effective in every interleaving: a key of the cleared session that is
   not being written when the clear begins and is not written again is gone once all
   calls have returned.
   */
  lemma ClearIsEffective<E>(states: seq<State<E>>, steps: seq<Step<E>>, owner: string -> string,
                            i: nat, j: nat, key: string)
    requires LawfulRun(states, steps, owner) && i < j <= |steps|
    requires steps[i].TakeIndex? && owner(key) == steps[i].session
    requires forall call :: call in states[i].calls && states[i].calls[call].Recording? ==> states[i].calls[call].key != key
    requires forall k :: i < k < j ==> !(steps[k].InsertEntry? && steps[k].key == key)
    requires states[j].calls == map[]
    ensures key !in states[j].inner
  {
    RunKeepsInv(states, steps, owner, i);
    var before, after := states[i], states[i + 1];
    assert Moves(before, steps[i], after);
    forall session ensures !Listed(after, session, key) {
      assert Listed(before, session, key) ==> session == steps[i].session;
    }
    DoomedStaysDoomed(states, steps, key, i + 1, j);
    RunKeepsInv(states, steps, owner, j);
    assert forall call :: !InHand(states[j], call, key);
    assert key in states[j].inner ==> Held(states[j], key);
  }
}
