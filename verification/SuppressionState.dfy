/** Per-session duplicate suppression (crates/mcp-server/src/suppression_state.rs). */
module SuppressionState {
  import opened Wrappers
  import opened RedisGlob
  import opened SessionKeys
  import opened SessionIndex
  import opened SessionOverlap
  import opened SessionCalls

  datatype Suppression = Suppression(suppressed: bool, graphVersion: int, scopesConsidered: seq<string>)

  function LocalOwner(): string -> string {
    (key: string) => OwnerAfter("", key)
  }

  // ---- The machine of the two maps, over real local keys ----

  /** Entries are written under the key of an accepted session. */
  ghost predicate RecordStep<E>(step: Step<E>) {
    step.InsertEntry? ==> ValidSessionId(step.session) && exists repo :: step.key == LocalKey(step.session, repo)
  }

  ghost predicate RecordRun<E>(states: seq<State<E>>, steps: seq<Step<E>>) {
    && Run(states, steps)
    && states[0] == State(map[], map[], map[])
    && forall k :: 0 <= k < |steps| ==> RecordStep(steps[k])
  }

  lemma RecordRunIsLawful<E>(states: seq<State<E>>, steps: seq<Step<E>>)
    requires RecordRun(states, steps)
    ensures LawfulRun(states, steps, LocalOwner())
  {
    forall k | 0 <= k < |steps| ensures LawfulStep(steps[k], LocalOwner()) {
      var step := steps[k];
      assert RecordStep(step);
      if step.InsertEntry? {
        var repo :| step.key == LocalKey(step.session, repo);
        LocalKeyOwner(step.session, repo);
      }
    }
  }

  /** In every interleaving over local keys: at rest, each stored record is listed under the session in its key. */
  lemma RecordsAreListed<E>(states: seq<State<E>>, steps: seq<Step<E>>, k: nat, session: string, repo: string)
    requires RecordRun(states, steps) && k <= |steps| && states[k].calls == map[] && ValidSessionId(session)
    requires LocalKey(session, repo) in states[k].inner
    ensures Listed(states[k], session, LocalKey(session, repo))
  {
    RecordRunIsLawful(states, steps);
    AtRestEverythingIsListed(states, steps, LocalOwner(), k);
    LocalKeyOwner(session, repo);
  }

  /** A clear of one session leaves every record of another accepted session as it is. */
  lemma SuppressionClearSparesOthers<E>(states: seq<State<E>>, steps: seq<Step<E>>, k: nat, other: string, repo: string)
    requires RecordRun(states, steps) && k < |steps| && steps[k].RemoveEntry? && ValidSessionId(other)
    ensures steps[k].call in states[k].calls
    ensures states[k].calls[steps[k].call].session != other && LocalKey(other, repo) in states[k].inner ==>
      LocalKey(other, repo) in states[k + 1].inner
      && states[k + 1].inner[LocalKey(other, repo)] == states[k].inner[LocalKey(other, repo)]
  {
    RecordRunIsLawful(states, steps);
    ClearTouchesOnlyItsSession(states, steps, LocalOwner(), k);
    LocalKeyOwner(other, repo);
  }

  /** A cleared session's record that is not being written then, nor written again, is gone at rest. */
  lemma SuppressionClearIsEffective<E>(states: seq<State<E>>, steps: seq<Step<E>>, i: nat, j: nat, session: string, repo: string)
    requires RecordRun(states, steps) && i < j <= |steps| && ValidSessionId(session)
    requires steps[i].TakeIndex? && steps[i].session == session
    requires forall call :: call in states[i].calls && states[i].calls[call].Recording? ==>
      states[i].calls[call].key != LocalKey(session, repo)
    requires forall k :: i < k < j ==> !Inserts(steps[k], LocalKey(session, repo))
    requires states[j].calls == map[]
    ensures LocalKey(session, repo) !in states[j].inner
  {
    RecordRunIsLawful(states, steps);
    LocalKeyOwner(session, repo);
    assert forall k :: i < k < j ==> !Inserts(steps[k], LocalKey(session, repo));
    ClearIsEffective(states, steps, LocalOwner(), i, j, LocalKey(session, repo));
  }

  /** With calls for one session never overlapping, a listed key always has its record. */
  lemma SuppressionIndexIsMirror<E>(states: seq<State<E>>, steps: seq<Step<E>>, session: string, key: string, k: nat)
    requires RecordRun(states, steps) && k <= |steps| && Listed(states[k], session, key)
    requires forall m :: 0 <= m < k ==> SerialStep(states[m], steps[m])
    ensures key in states[k].inner
  {
    RecordRunIsLawful(states, steps);
    RunKeepsInv(states, steps, LocalOwner(), k);
    forall j | 0 <= j < k && Inserts(steps[j], key) ensures steps[j].session == session {
      assert LawfulStep(steps[j], LocalOwner());
    }
    SerialSessionsMirror(states, steps, session, key, k);
  }

  class SessionSuppressionState {
    const keyPrefix: string
    var inner: map<string, Suppression>            // by local key
    var sessionIndex: map<string, set<string>>
    var redis: map<string, Suppression>            // by shared key

    /** No record is un-evictable. */
    ghost predicate Valid()
      reads this
    {
      Evictable(inner, sessionIndex)
    }

    /** Moreover the index lists exactly each session's own keys, as long as only accepted ids are used. */
    ghost predicate Separate()
      reads this
    {
      Mirrors(inner, sessionIndex, LocalOwner())
    }

    constructor (keyPrefix: string, redis: map<string, Suppression>)
      ensures Valid() && Separate() && inner == map[] && this.redis == redis && this.keyPrefix == keyPrefix
    {
      this.keyPrefix, this.redis := keyPrefix, redis;
      inner, sessionIndex := map[], map[];
    }

    /** The record a lookup sees: a local one of any version hides the shared one. */
    ghost function Visible(session: string, repo: string, reachable: bool): Option<Suppression>
      reads this
    {
      var shared := SuppressionRedisKey(keyPrefix, session, repo);
      if LocalKey(session, repo) in inner then Some(inner[LocalKey(session, repo)])
      else if reachable && shared in redis then Some(redis[shared])
      else None
    }

    /** `record_local`, uninterrupted: a run of the machine. */
    method RecordLocal(session: string, key: string, entry: Suppression)
      requires Valid()
      modifies this`inner, this`sessionIndex
      ensures Valid() && inner == old(inner)[key := entry]
      ensures sessionIndex == old(sessionIndex)[Trim(session) := old(IndexOf(sessionIndex, Trim(session))) + {key}]
      ensures old(Separate()) && LocalOwner()(key) == Trim(session) ==> Separate()
      ensures Performs(State(old(inner), old(sessionIndex), map[]), RecordSteps(0, Trim(session), key, entry),
                       State(inner, sessionIndex, map[]))
    {
      RecordIsRun(inner, sessionIndex, Trim(session), key, entry);
      RecordKeepsEvictable(inner, sessionIndex, Trim(session), key, entry);
      if Separate() && LocalOwner()(key) == Trim(session) {
        RecordKeepsMirror(inner, sessionIndex, Trim(session), key, entry, LocalOwner());
      }
      inner := inner[key := entry];
      sessionIndex := sessionIndex[Trim(session) := IndexOf(sessionIndex, Trim(session)) + {key}];
    }

    lemma ValidOwner(session: string, repo: string)
      ensures ValidSessionId(session) ==> LocalOwner()(LocalKey(session, repo)) == Trim(session) == session
    {
      if ValidSessionId(session) {
        LocalKeyOwner(session, repo);
        ValidIdIsClean(session);
      }
    }

    /**
     True exactly when the visible record suppresses this very version. The local map is
     warmed with that record and nothing else.
     */
    method IsSuppressed(session: string, repo: string, graphVersion: int, reachable: bool) returns (suppressed: bool)
      requires Valid()
      modifies this`inner, this`sessionIndex
      ensures Valid() && (old(Separate()) && ValidSessionId(session) ==> Separate())
      ensures var key, shared := LocalKey(session, repo), SuppressionRedisKey(keyPrefix, session, repo);
        && (key in old(inner) ==>
              && (suppressed <==> old(inner)[key].suppressed && old(inner)[key].graphVersion == graphVersion)
              && inner == old(inner))
        && (key !in old(inner) && reachable && shared in redis ==>
              && (suppressed <==> redis[shared].suppressed && redis[shared].graphVersion == graphVersion)
              && inner == old(inner)[key := redis[shared]])
        && (key !in old(inner) && !(reachable && shared in redis) ==> !suppressed && inner == old(inner))
      ensures var visible := old(Visible(session, repo, reachable));
        suppressed == (visible.Some? && visible.value.suppressed && visible.value.graphVersion == graphVersion)
    {
      var key := LocalKey(session, repo);
      ValidOwner(session, repo);
      if key in inner {
        return inner[key].suppressed && inner[key].graphVersion == graphVersion;
      }
      var shared := SuppressionRedisKey(keyPrefix, session, repo);
      if reachable && shared in redis {
        var entry := redis[shared];
        RecordLocal(session, key, entry);
        return entry.suppressed && entry.graphVersion == graphVersion;
      }
      suppressed := false;
    }

    method MarkHealthy(session: string, repo: string, graphVersion: int, scopes: seq<string>, reachable: bool)
      requires Valid()
      modifies this
      ensures Valid() && (old(Separate()) && ValidSessionId(session) ==> Separate())
      ensures forall up :: Visible(session, repo, up) == Some(Suppression(true, graphVersion, scopes))
      ensures redis == if reachable
        then old(redis)[SuppressionRedisKey(keyPrefix, session, repo) := Suppression(true, graphVersion, scopes)]
        else old(redis)
      ensures inner == old(inner)[LocalKey(session, repo) := Suppression(true, graphVersion, scopes)]
    {
      var entry := Suppression(true, graphVersion, scopes);
      ValidOwner(session, repo);
      RecordLocal(session, LocalKey(session, repo), entry);
      if reachable {
        redis := redis[SuppressionRedisKey(keyPrefix, session, repo) := entry];
      }
    }

    /**
     Evicts the session's listed records and hands back the pattern for the shared store:
     a run of the machine. When only accepted ids are used, that is exactly what a full
     scan for the session would evict.
     */
    method ClearSession(session: string) returns (pattern: string, ghost steps: seq<Step<Suppression>>)
      requires Valid()
      modifies this`inner, this`sessionIndex
      ensures Valid()
      ensures inner == old(inner) - old(IndexOf(sessionIndex, Trim(session)))
      ensures sessionIndex == old(sessionIndex) - {Trim(session)}
      ensures pattern == SuppressionPattern(keyPrefix, session)
      ensures old(Separate()) ==> Separate() && inner == Retained(old(inner), Trim(session), LocalOwner())
      ensures Performs(State(old(inner), old(sessionIndex), map[]), steps, State(inner, sessionIndex, map[]))
    {
      if Separate() {
        IndexedClearIsFullScan(inner, sessionIndex, Trim(session), LocalOwner());
      }
      ClearKeepsEvictable(inner, sessionIndex, Trim(session));
      steps := EvictListed(Trim(session));
      var escaped := EscapeRedisGlob(Trim(session));
      pattern := keyPrefix + "suppression:" + escaped + "::*";
    }

    /** Takes the session's index and removes the keys it lists, one by one. */
    method EvictListed(session: string) returns (ghost steps: seq<Step<Suppression>>)
      modifies this`inner, this`sessionIndex
      ensures inner == old(inner) - old(IndexOf(sessionIndex, session))
      ensures sessionIndex == old(sessionIndex) - {session}
      ensures Performs(State(old(inner), old(sessionIndex), map[]), steps, State(inner, sessionIndex, map[]))
    {
      ghost var innerBefore, indexBefore := inner, sessionIndex;
      ClearBegins(inner, sessionIndex, session);
      steps := [TakeIndex(0, session)];
      var left := IndexOf(sessionIndex, session);
      sessionIndex := sessionIndex - {session};
      while left != {}
        invariant left <= IndexOf(indexBefore, session)
        invariant inner == innerBefore - (IndexOf(indexBefore, session) - left)
        invariant sessionIndex == indexBefore - {session}
        invariant Performs(State(innerBefore, indexBefore, map[]), steps, MidClear(innerBefore, indexBefore, session, left))
        decreases left
      {
        var key :| key in left;
        ClearRemoves(innerBefore, indexBefore, session, steps, left, key);
        steps := steps + [RemoveEntry(0, key)];
        inner := inner - {key};
        left := left - {key};
      }
      ClearEnds(innerBefore, indexBefore, session, steps);
      steps := steps + [EndClear(0)];
    }

    /** The spawned scan-and-delete, when it completes. */
    method DeletePattern(pattern: string)
      modifies this`redis
      ensures redis == Undeleted(old(redis), pattern)
    {
      redis := map key | key in redis && !GlobMatch(pattern, key) :: redis[key];
    }

    /**
     Clear followed by its background delete. Under a plain configured prefix the shared
     store loses exactly the keys of the session's raw prefix. For an accepted id, when
     only accepted ids are used, the session's records are forgotten and no record of any
     other accepted session is.
     */
    method ClearEverywhere(session: string)
      requires Valid()
      modifies this
      ensures Valid() && (old(Separate()) ==> Separate())
      ensures inner == old(inner) - old(IndexOf(sessionIndex, Trim(session)))
      ensures redis == Undeleted(old(redis), SuppressionPattern(keyPrefix, session))
      ensures Plain(keyPrefix) ==>
        forall key :: key in redis <==> key in old(redis) && !(keyPrefix + "suppression:" + Trim(session) + "::" <= key)
      ensures old(Separate()) && ValidSessionId(session) && Plain(keyPrefix) ==>
        && (forall repo, up :: Visible(session, repo, up) == None)
        && (forall other, repo, up :: ValidSessionId(other) && other != session ==>
              Visible(other, repo, up) == old(Visible(other, repo, up)))
    {
      var pattern, steps := ClearSession(session);
      DeletePattern(pattern);
      if Plain(keyPrefix) {
        forall key ensures GlobMatch(pattern, key) <==> keyPrefix + "suppression:" + Trim(session) + "::" <= key {
          SuppressionPatternIsExact(keyPrefix, session, key);
        }
        if old(Separate()) && ValidSessionId(session) {
          forall repo, up ensures Visible(session, repo, up) == None {
            ValidOwner(session, repo);
            SharedKeyMatches(session, repo);
          }
          forall other, repo, up | ValidSessionId(other) && other != session
            ensures Visible(other, repo, up) == old(Visible(other, repo, up))
          {
            ValidOwner(session, repo);
            ValidOwner(other, repo);
            SharedKeySpared(session, other, repo);
          }
        }
      }
    }

    lemma SharedKeyMatches(session: string, repo: string)
      requires Plain(keyPrefix)
      ensures GlobMatch(SuppressionPattern(keyPrefix, session), SuppressionRedisKey(keyPrefix, session, repo))
    {
      var raw := keyPrefix + "suppression:" + Trim(session) + "::";
      SuppressionPatternIsExact(keyPrefix, session, SuppressionRedisKey(keyPrefix, session, repo));
      assert SuppressionRedisKey(keyPrefix, session, repo) == raw + Trim(repo);
    }

    lemma SharedKeySpared(session: string, other: string, repo: string)
      requires Plain(keyPrefix) && ValidSessionId(session) && ValidSessionId(other) && other != session
      ensures !GlobMatch(SuppressionPattern(keyPrefix, session), SuppressionRedisKey(keyPrefix, other, repo))
    {
      ValidIdIsClean(session);
      ValidIdIsClean(other);
      var front, key := keyPrefix + "suppression:", SuppressionRedisKey(keyPrefix, other, repo);
      var raw := front + session + "::";
      SuppressionPatternIsExact(keyPrefix, session, key);
      assert key == front + other + ":" + (":" + Trim(repo));
      OwnerOfKey(front, other, ":" + Trim(repo));
      if raw <= key {
        assert key == front + session + ":" + (":" + key[|raw|..]);
        OwnerOfKey(front, session, ":" + key[|raw|..]);
      }
    }
  }

  /**
   A restart forgets nothing that reached the shared store: a session marked at a version
   is suppressed at that version, and at no other, by a new state over that store.
   */
  method SuppressedAfterRestart(before: SessionSuppressionState, session: string, repo: string, marked: int,
                                scopes: seq<string>, graphVersion: int)
    returns (after: SessionSuppressionState, suppressed: bool)
    requires before.Valid()
    modifies before
    ensures suppressed <==> graphVersion == marked
    ensures fresh(after) && after.inner == map[LocalKey(session, repo) := Suppression(true, marked, scopes)]
  {
    before.MarkHealthy(session, repo, marked, scopes, true);
    after := new SessionSuppressionState(before.keyPrefix, before.redis);
    suppressed := after.IsSuppressed(session, repo, graphVersion, true);
  }
}
