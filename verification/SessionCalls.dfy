/** Uninterrupted calls on the two maps of a session store, as runs of the `SessionIndex` machine. */
module SessionCalls {
  import opened SessionIndex

  /** Taking these steps, one after the other, leads from `s` to `t`. */
  ghost predicate Performs<E(!new)>(s: State<E>, steps: seq<Step<E>>, t: State<E>) {
    exists states :: Run(states, steps) && states[0] == s && states[|steps|] == t
  }

  lemma PerformsNothing<E(!new)>(s: State<E>)
    ensures Performs(s, [], s)
  {
    var none: seq<Step<E>> := [];
    assert Run([s], none);
  }

  lemma PerformsNext<E(!new)>(s: State<E>, steps: seq<Step<E>>, m: State<E>, step: Step<E>)
    requires Performs(s, steps, m) && Enabled(m, step)
    ensures Performs(s, steps + [step], Next(m, step))
  {
    var states :| Run(states, steps) && states[0] == s && states[|steps|] == m;
    var more, longer := states + [Next(m, step)], steps + [step];
    forall k | 0 <= k < |longer| ensures Moves(more[k], longer[k], more[k + 1]) {
      assert k < |steps| ==> Moves(states[k], steps[k], states[k + 1]);
    }
    assert Run(more, longer);
  }

  /** A whole `record_local` call. */
  function RecordSteps<E>(call: nat, session: string, key: string, e: E): seq<Step<E>> {
    [InsertEntry(call, session, key, e), InsertIndex(call)]
  }

  lemma RecordIsRun<E(!new)>(inner: map<string, E>, index: map<string, set<string>>, session: string, key: string, e: E)
    ensures Performs(State(inner, index, map[]), RecordSteps(0, session, key, e),
                     State(inner[key := e], index[session := IndexOf(index, session) + {key}], map[]))
  {
    var s: State<E> := State(inner, index, map[]);
    var m := Next(s, InsertEntry(0, session, key, e));
    PerformsNothing(s);
    PerformsNext(s, [], s, InsertEntry(0, session, key, e));
    PerformsNext(s, [] + [InsertEntry(0, session, key, e)], m, InsertIndex(0));
    assert [] + [InsertEntry(0, session, key, e)] + [InsertIndex(0)] == RecordSteps(0, session, key, e);
    assert Next(m, InsertIndex(0)).calls == map[];
  }

  /** Where an uninterrupted clear stands while `left` keys are still to be removed. */
  function MidClear<E>(inner: map<string, E>, index: map<string, set<string>>, session: string, left: set<string>): State<E> {
    State(inner - (IndexOf(index, session) - left), index - {session}, map[0 := Clearing(session, left)])
  }

  lemma ClearBegins<E(!new)>(inner: map<string, E>, index: map<string, set<string>>, session: string)
    ensures Performs(State(inner, index, map[]), [TakeIndex(0, session)], MidClear(inner, index, session, IndexOf(index, session)))
  {
    var s: State<E> := State(inner, index, map[]);
    PerformsNothing(s);
    var take: Step<E> := TakeIndex(0, session);
    PerformsNext(s, [], s, take);
    assert [] + [take] == [take];
    assert inner - (IndexOf(index, session) - IndexOf(index, session)) == inner;
  }

  lemma ClearRemoves<E(!new)>(inner: map<string, E>, index: map<string, set<string>>, session: string, steps: seq<Step<E>>,
                        left: set<string>, key: string)
    requires key in left && left <= IndexOf(index, session)
    requires Performs(State(inner, index, map[]), steps, MidClear(inner, index, session, left))
    ensures Performs(State(inner, index, map[]), steps + [RemoveEntry(0, key)], MidClear(inner, index, session, left - {key}))
  {
    var m := MidClear(inner, index, session, left);
    PerformsNext(State(inner, index, map[]), steps, m, RemoveEntry(0, key));
    assert m.inner - {key} == inner - (IndexOf(index, session) - (left - {key}));
    assert Next(m, RemoveEntry(0, key)) == MidClear(inner, index, session, left - {key});
  }

  lemma ClearEnds<E(!new)>(inner: map<string, E>, index: map<string, set<string>>, session: string, steps: seq<Step<E>>)
    requires Performs(State(inner, index, map[]), steps, MidClear(inner, index, session, {}))
    ensures Performs(State(inner, index, map[]), steps + [EndClear(0)],
                     State(inner - IndexOf(index, session), index - {session}, map[]))
  {
    var m := MidClear(inner, index, session, {});
    PerformsNext(State(inner, index, map[]), steps, m, EndClear(0));
    assert IndexOf(index, session) - {} == IndexOf(index, session);
    assert Next(m, EndClear(0)).calls == map[];
  }

  /** Every entry is listed in some session's index, so some clear would evict it. */
  ghost predicate Evictable<E>(inner: map<string, E>, index: map<string, set<string>>) {
    forall key :: key in inner ==> exists session :: key in IndexOf(index, session)
  }

  lemma RecordKeepsEvictable<E>(inner: map<string, E>, index: map<string, set<string>>, session: string, key: string, e: E)
    requires Evictable(inner, index)
    ensures Evictable(inner[key := e], index[session := IndexOf(index, session) + {key}])
  {
    var stored, after := inner[key := e], index[session := IndexOf(index, session) + {key}];
    forall k | k in stored ensures exists other :: k in IndexOf(after, other) {
      if k == key {
        assert k in IndexOf(after, session);
      } else {
        var other :| k in IndexOf(index, other);
        assert k in IndexOf(after, other);
      }
    }
  }

  lemma ClearKeepsEvictable<E>(inner: map<string, E>, index: map<string, set<string>>, session: string)
    requires Evictable(inner, index)
    ensures Evictable(inner - IndexOf(index, session), index - {session})
  {
    forall k | k in inner - IndexOf(index, session) ensures exists other :: k in IndexOf(index - {session}, other) {
      var other :| k in IndexOf(index, other);
      assert k in IndexOf(index - {session}, other);
    }
  }

  /** The index lists exactly each session's own keys: all of the stored ones, and only those. */
  ghost predicate Mirrors<E>(inner: map<string, E>, index: map<string, set<string>>, owner: string -> string) {
    && (forall key :: key in inner ==> key in IndexOf(index, owner(key)))
    && (forall session, key :: session in index && key in index[session] ==> owner(key) == session && key in inner)
  }

  /** What a full scan that retains other sessions' entries would leave. */
  function Retained<E>(inner: map<string, E>, session: string, owner: string -> string): map<string, E> {
    map key | key in inner && owner(key) != session :: inner[key]
  }

  /** Removing the indexed keys does exactly what scanning every entry would do. */
  lemma IndexedClearIsFullScan<E>(inner: map<string, E>, index: map<string, set<string>>, session: string,
                                  owner: string -> string)
    requires Mirrors(inner, index, owner)
    ensures inner - IndexOf(index, session) == Retained(inner, session, owner)
    ensures Mirrors(Retained(inner, session, owner), index - {session}, owner)
  {
  }

  lemma RecordKeepsMirror<E>(inner: map<string, E>, index: map<string, set<string>>, session: string, key: string, e: E,
                             owner: string -> string)
    requires Mirrors(inner, index, owner) && owner(key) == session
    ensures Mirrors(inner[key := e], index[session := IndexOf(index, session) + {key}], owner)
  {
  }
}
