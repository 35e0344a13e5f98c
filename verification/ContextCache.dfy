/** The compiled-context cache (crates/mcp-server/src/context_cache.rs). */
module ContextCache {
  import opened Wrappers
  import opened Sorting
  import opened Texts
  import opened RedisGlob
  import opened SessionKeys
  import opened SessionIndex
  import opened SessionOverlap
  import opened SessionCalls

  /** A cached answer; `body` stands for its payload. */
  datatype CachedContext = CachedContext(graphVersion: int, body: string)

  function ByText(): (string, string) -> bool {
    (a: string, b: string) => TextLe(a, b)
  }

  lemma ByTextIsOrder(scopes: seq<string>)
    ensures TotalPreorder(ByText()) && NoTies(ByText(), scopes)
  {
    forall a, b ensures ByText()(a, b) || ByText()(b, a) {
      TextLeTotal(a, b);
    }
    forall a, b, c | ByText()(a, b) && ByText()(b, c) ensures ByText()(a, c) {
      TextLeTransitive(a, b, c);
    }
    forall a, b | a in scopes && b in scopes && ByText()(a, b) && ByText()(b, a) ensures a == b {
      TextLeAntisymmetric(a, b);
    }
  }

  /** The fingerprint as the program computes it: sort, then join. */
  function ScopeFingerprint(scopes: seq<string>): string {
    Join(',', Sort(ByText(), scopes))
  }

  /** Splitting a fingerprint at commas gives the sorted scopes back exactly when no name holds a comma. */
  lemma FingerprintDecodesIffCommaFree(scopes: seq<string>)
    requires scopes != []
    ensures Split(',', ScopeFingerprint(scopes)) == Sort(ByText(), scopes) <==> Clear(',', scopes)
  {
    SplitUndoesJoinIffClear(',', Sort(ByText(), scopes));
    SortMembers(scopes);
  }

  lemma SortMembers(scopes: seq<string>)
    ensures forall s :: s in Sort(ByText(), scopes) <==> s in scopes
  {
    forall s ensures s in Sort(ByText(), scopes) <==> s in scopes {
      assert s in multiset(Sort(ByText(), scopes)) <==> s in multiset(scopes);
    }
  }

  /** For comma-free names, two non-empty scope lists share a fingerprint exactly when they list the same scopes. */
  lemma FingerprintIdentifiesScopes(a: seq<string>, b: seq<string>)
    requires Clear(',', a) && Clear(',', b) && a != [] && b != []
    ensures ScopeFingerprint(a) == ScopeFingerprint(b) <==> multiset(a) == multiset(b)
  {
    ByTextIsOrder(a);
    if multiset(a) == multiset(b) {
      SortForgetsOrder(ByText(), a, b);
    }
    FingerprintDecodesIffCommaFree(a);
    FingerprintDecodesIffCommaFree(b);
  }

  /** No other scope list has this one's fingerprint, so no other list shares its cache entries. */
  ghost predicate OwnFingerprint(scopes: seq<string>) {
    forall other :: ScopeFingerprint(other) == ScopeFingerprint(scopes) ==> multiset(other) == multiset(scopes)
  }

  /** Some comma in the name splits it into two names in order. */
  predicate SplitsInOrder(name: string) {
    exists i | 0 <= i < |name| :: CutsInOrder(name, i)
  }

  predicate CutsInOrder(name: string, i: int) {
    0 <= i < |name| && name[i] == ',' && TextLe(name[..i], name[i + 1..])
  }

  /** Any list but a single name shares its fingerprint with the single name that spells it. */
  lemma FingerprintCollides(scopes: seq<string>)
    requires |scopes| != 1
    ensures ScopeFingerprint([ScopeFingerprint(scopes)]) == ScopeFingerprint(scopes)
    ensures multiset([ScopeFingerprint(scopes)]) != multiset(scopes)
  {
    assert |multiset([ScopeFingerprint(scopes)])| == 1 != |multiset(scopes)|;
  }

  lemma {:induction false} PrefixIsLess(a: string, b: string)
    ensures TextLe(a, a + b)
  {
    if a != "" {
      PrefixIsLess(a[1..], b);
      assert (a + b)[1..] == a[1..] + b;
    }
  }

  lemma JoinedCutsInOrder(sorted: seq<string>)
    requires |sorted| >= 2 && TextLe(sorted[0], sorted[1])
    ensures SplitsInOrder(Join(',', sorted))
  {
    var rest, i := Join(',', sorted[1..]), |sorted[0]|;
    assert Join(',', sorted) == sorted[0] + "," + rest;
    assert rest == sorted[1] + rest[|sorted[1]|..];
    PrefixIsLess(sorted[1], rest[|sorted[1]|..]);
    TextLeTransitive(sorted[0], sorted[1], rest);
    assert Join(',', sorted)[..i] == sorted[0] && Join(',', sorted)[i + 1..] == rest;
    assert CutsInOrder(Join(',', sorted), i);
  }

  lemma FingerprintOfOne(name: string)
    ensures ScopeFingerprint([name]) == name
  {
    assert Sort(ByText(), [name]) == [name];
  }

  lemma CutsShareFingerprint(name: string, i: nat)
    requires CutsInOrder(name, i)
    ensures ScopeFingerprint([name[..i], name[i + 1..]]) == name
  {
    var head, tail := name[..i], name[i + 1..];
    assert [head, tail][1..] == [tail] && Sort(ByText(), [tail]) == [tail];
    assert ByText()(head, tail) && Insert(ByText(), head, [tail]) == [head] + [tail];
    assert Sort(ByText(), [head, tail]) == [head, tail];
    assert Join(',', [head, tail]) == head + "," + Join(',', [tail]) && Join(',', [tail]) == tail;
    assert name == head + "," + tail;
  }

  lemma SharedIsNotOwn(scopes: seq<string>, other: seq<string>)
    requires ScopeFingerprint(other) == ScopeFingerprint(scopes) && |other| != |scopes|
    ensures !OwnFingerprint(scopes)
  {
    assert |multiset(other)| == |other| && |multiset(scopes)| == |scopes|;
  }

  /**
   Exactly the single names that are not empty and that no comma splits into two names
   in order have a fingerprint of their own.
   */
  lemma FingerprintIsOwnIff(scopes: seq<string>)
    ensures OwnFingerprint(scopes) <==> |scopes| == 1 && scopes[0] != "" && !SplitsInOrder(scopes[0])
  {
    if |scopes| != 1 {
      FingerprintCollides(scopes);
      SharedIsNotOwn(scopes, [ScopeFingerprint(scopes)]);
    } else {
      NameIsOwnIff(scopes[0]);
      assert scopes == [scopes[0]];
    }
  }

  lemma NameIsOwnIff(name: string)
    ensures OwnFingerprint([name]) <==> name != "" && !SplitsInOrder(name)
  {
    FingerprintOfOne(name);
    if name == "" {
      SharedIsNotOwn([name], []);
    } else if SplitsInOrder(name) {
      var i :| 0 <= i < |name| && CutsInOrder(name, i);
      CutsShareFingerprint(name, i);
      SharedIsNotOwn([name], [name[..i], name[i + 1..]]);
    } else {
      forall other | ScopeFingerprint(other) == ScopeFingerprint([name]) ensures multiset(other) == multiset([name]) {
        UnsplitNameIsAlone(name, other);
      }
    }
  }

  lemma UnsplitNameIsAlone(name: string, other: seq<string>)
    requires name != "" && !SplitsInOrder(name) && ScopeFingerprint(other) == name
    ensures other == [name]
  {
    var sorted := Sort(ByText(), other);
    if |other| >= 2 {
      ByTextIsOrder(other);
      SortSorts(ByText(), other);
      assert ByText()(sorted[0], sorted[1]);
      JoinedCutsInOrder(sorted);
    } else if |other| == 1 {
      assert other == [other[0]] && sorted == other;
    }
  }

  function CacheOwner(keyPrefix: string): string -> string {
    (key: string) => OwnerAfter(keyPrefix + "cache:", key)
  }

  // ---- The machine of the two maps, over real cache keys ----

  /** Entries are written under the key of an accepted session. */
  ghost predicate CacheStep<E>(step: Step<E>, keyPrefix: string) {
    step.InsertEntry? ==>
      ValidSessionId(step.session)
      && exists hash, scopes :: step.key == CacheKey(keyPrefix, step.session, hash, scopes)
  }

  ghost predicate CacheRun<E>(states: seq<State<E>>, steps: seq<Step<E>>, keyPrefix: string) {
    && Run(states, steps)
    && states[0] == State(map[], map[], map[])
    && forall k :: 0 <= k < |steps| ==> CacheStep(steps[k], keyPrefix)
  }

  lemma CacheRunIsLawful<E>(states: seq<State<E>>, steps: seq<Step<E>>, keyPrefix: string)
    requires CacheRun(states, steps, keyPrefix)
    ensures LawfulRun(states, steps, CacheOwner(keyPrefix))
  {
    forall k | 0 <= k < |steps| ensures LawfulStep(steps[k], CacheOwner(keyPrefix)) {
      var step := steps[k];
      assert CacheStep(step, keyPrefix);
      if step.InsertEntry? {
        var hash, scopes :| step.key == CacheKey(keyPrefix, step.session, hash, scopes);
        CacheKeyOwner(keyPrefix, step.session, hash, scopes);
      }
    }
  }

  /** In every interleaving over cache keys: at rest, each stored entry is listed under the session in its key. */
  lemma CacheEntriesAreListed<E>(states: seq<State<E>>, steps: seq<Step<E>>, keyPrefix: string, k: nat,
                                 session: string, hash: string, scopes: string)
    requires CacheRun(states, steps, keyPrefix) && k <= |steps| && states[k].calls == map[] && ValidSessionId(session)
    requires CacheKey(keyPrefix, session, hash, scopes) in states[k].inner
    ensures Listed(states[k], session, CacheKey(keyPrefix, session, hash, scopes))
  {
    CacheRunIsLawful(states, steps, keyPrefix);
    AtRestEverythingIsListed(states, steps, CacheOwner(keyPrefix), k);
    CacheKeyOwner(keyPrefix, session, hash, scopes);
  }

  /** A clear of one session leaves every entry of another accepted session as it is. */
  lemma CacheClearSparesOthers<E>(states: seq<State<E>>, steps: seq<Step<E>>, keyPrefix: string, k: nat,
                                  other: string, hash: string, scopes: string)
    requires CacheRun(states, steps, keyPrefix) && k < |steps| && steps[k].RemoveEntry? && ValidSessionId(other)
    ensures steps[k].call in states[k].calls
    ensures var key := CacheKey(keyPrefix, other, hash, scopes);
      states[k].calls[steps[k].call].session != other && key in states[k].inner ==>
        key in states[k + 1].inner && states[k + 1].inner[key] == states[k].inner[key]
  {
    CacheRunIsLawful(states, steps, keyPrefix);
    ClearTouchesOnlyItsSession(states, steps, CacheOwner(keyPrefix), k);
    CacheKeyOwner(keyPrefix, other, hash, scopes);
  }

  /** A cleared session's key that is not being written then, nor written again, is gone at rest. */
  lemma CacheClearIsEffective<E>(states: seq<State<E>>, steps: seq<Step<E>>, keyPrefix: string, i: nat, j: nat,
                                 session: string, hash: string, scopes: string)
    requires CacheRun(states, steps, keyPrefix) && i < j <= |steps| && ValidSessionId(session)
    requires steps[i].TakeIndex? && steps[i].session == session
    requires forall call :: call in states[i].calls && states[i].calls[call].Recording? ==>
      states[i].calls[call].key != CacheKey(keyPrefix, session, hash, scopes)
    requires forall k :: i < k < j ==> !Inserts(steps[k], CacheKey(keyPrefix, session, hash, scopes))
    requires states[j].calls == map[]
    ensures CacheKey(keyPrefix, session, hash, scopes) !in states[j].inner
  {
    CacheRunIsLawful(states, steps, keyPrefix);
    CacheKeyOwner(keyPrefix, session, hash, scopes);
    assert forall k :: i < k < j ==> !Inserts(steps[k], CacheKey(keyPrefix, session, hash, scopes));
    ClearIsEffective(states, steps, CacheOwner(keyPrefix), i, j, CacheKey(keyPrefix, session, hash, scopes));
  }

  /** With calls for one session never overlapping, a listed cache key always has its entry. */
  lemma CacheIndexIsMirror<E>(states: seq<State<E>>, steps: seq<Step<E>>, keyPrefix: string, session: string, key: string, k: nat)
    requires CacheRun(states, steps, keyPrefix) && k <= |steps| && Listed(states[k], session, key)
    requires forall m :: 0 <= m < k ==> SerialStep(states[m], steps[m])
    ensures key in states[k].inner
  {
    CacheRunIsLawful(states, steps, keyPrefix);
    RunKeepsInv(states, steps, CacheOwner(keyPrefix), k);
    forall j | 0 <= j < k && Inserts(steps[j], key) ensures steps[j].session == session {
      assert LawfulStep(steps[j], CacheOwner(keyPrefix));
    }
    SerialSessionsMirror(states, steps, session, key, k);
  }

  class CompiledContextCache {
    const keyPrefix: string
    const promptHash: string -> string
    var inner: map<string, CachedContext>
    var sessionIndex: map<string, set<string>>
    var redis: map<string, CachedContext>  // the shared store's view of this cache's keys

    /** No entry is un-evictable. */
    ghost predicate Valid()
      reads this
    {
      Evictable(inner, sessionIndex)
    }

    /** Moreover the index lists exactly each session's own keys, as long as only accepted ids are used. */
    ghost predicate Separate()
      reads this
    {
      Mirrors(inner, sessionIndex, CacheOwner(keyPrefix))
    }

    constructor (keyPrefix: string, promptHash: string -> string, redis: map<string, CachedContext>)
      ensures Valid() && Separate() && inner == map[] && this.redis == redis
      ensures this.keyPrefix == keyPrefix && this.promptHash == promptHash
    {
      this.keyPrefix, this.promptHash, this.redis := keyPrefix, promptHash, redis;
      inner, sessionIndex := map[], map[];
    }

    function KeyFor(session: string, prompt: string, scopes: seq<string>): string {
      CacheKey(keyPrefix, session, promptHash(prompt), ScopeFingerprint(scopes))
    }

    lemma KeyForOwner(session: string, prompt: string, scopes: seq<string>)
      requires ValidSessionId(session)
      ensures CacheOwner(keyPrefix)(KeyFor(session, prompt, scopes)) == Trim(session) == session
    {
      ValidIdIsClean(session);
      CacheKeyOwner(keyPrefix, session, promptHash(prompt), ScopeFingerprint(scopes));
    }

    /**
     What a lookup answers: the local entry of this version, else the shared one of this
     version if the shared store is reachable.
     */
    ghost function Answer(key: string, graphVersion: int, reachable: bool): Option<CachedContext>
      reads this
    {
      if key in inner && inner[key].graphVersion == graphVersion then Some(inner[key])
      else if reachable && key in redis && redis[key].graphVersion == graphVersion then Some(redis[key])
      else None
    }

    /** `record_local`, uninterrupted: a run of the machine. */
    method RecordLocal(session: string, key: string, entry: CachedContext)
      requires Valid()
      modifies this`inner, this`sessionIndex
      ensures Valid() && inner == old(inner)[key := entry]
      ensures sessionIndex == old(sessionIndex)[Trim(session) := old(IndexOf(sessionIndex, Trim(session))) + {key}]
      ensures old(Separate()) && CacheOwner(keyPrefix)(key) == Trim(session) ==> Separate()
      ensures Performs(State(old(inner), old(sessionIndex), map[]), RecordSteps(0, Trim(session), key, entry),
                       State(inner, sessionIndex, map[]))
    {
      RecordIsRun(inner, sessionIndex, Trim(session), key, entry);
      RecordKeepsEvictable(inner, sessionIndex, Trim(session), key, entry);
      if Separate() && CacheOwner(keyPrefix)(key) == Trim(session) {
        RecordKeepsMirror(inner, sessionIndex, Trim(session), key, entry, CacheOwner(keyPrefix));
      }
      inner := inner[key := entry];
      sessionIndex := sessionIndex[Trim(session) := IndexOf(sessionIndex, Trim(session)) + {key}];
    }

    /**
     Answers only with an entry of the requested version, and warms the local map from
     the shared store. `reachable` says whether that store can be read.
     */
    method Get(session: string, prompt: string, scopes: seq<string>, graphVersion: int, reachable: bool)
      returns (found: Option<CachedContext>)
      requires Valid()
      modifies this`inner, this`sessionIndex
      ensures Valid() && (old(Separate()) && ValidSessionId(session) ==> Separate())
      ensures var key := KeyFor(session, prompt, scopes);
        var local := key in old(inner) && old(inner)[key].graphVersion == graphVersion;
        var shared := reachable && key in redis && redis[key].graphVersion == graphVersion;
        && (local ==> found == Some(old(inner)[key]) && inner == old(inner))
        && (!local && shared ==> found == Some(redis[key]) && inner == old(inner)[key := redis[key]])
        && (found.None? <==> !local && !shared)
        && (found.None? ==> inner == old(inner))
      ensures found == old(Answer(KeyFor(session, prompt, scopes), graphVersion, reachable))
    {
      var key := KeyFor(session, prompt, scopes);
      if key in inner && inner[key].graphVersion == graphVersion {
        return Some(inner[key]);
      }
      if reachable && key in redis && redis[key].graphVersion == graphVersion {
        if ValidSessionId(session) {
          KeyForOwner(session, prompt, scopes);
        }
        RecordLocal(session, key, redis[key]);
        return Some(redis[key]);
      }
      found := None;
    }

    /** After a set, the entry is the answer for its version, and no other key's entry moved. */
    method Set(session: string, prompt: string, scopes: seq<string>, entry: CachedContext, reachable: bool)
      requires Valid()
      modifies this
      ensures Valid() && (old(Separate()) && ValidSessionId(session) ==> Separate())
      ensures forall up :: Answer(KeyFor(session, prompt, scopes), entry.graphVersion, up) == Some(entry)
      ensures inner == old(inner)[KeyFor(session, prompt, scopes) := entry]
      ensures redis == if reachable then old(redis)[KeyFor(session, prompt, scopes) := entry] else old(redis)
    {
      var key := KeyFor(session, prompt, scopes);
      if ValidSessionId(session) {
        KeyForOwner(session, prompt, scopes);
      }
      RecordLocal(session, key, entry);
      if reachable {
        redis := redis[key := entry];
      }
    }

    /**
     Evicts the session's listed entries and hands back the pattern for the shared store:
     a run of the machine. When only accepted ids are used, that is exactly what a full
     scan for the session would evict.
     */
    method ClearSession(session: string) returns (pattern: string, ghost steps: seq<Step<CachedContext>>)
      requires Valid()
      modifies this`inner, this`sessionIndex
      ensures Valid()
      ensures inner == old(inner) - old(IndexOf(sessionIndex, Trim(session)))
      ensures sessionIndex == old(sessionIndex) - {Trim(session)}
      ensures pattern == CachePattern(keyPrefix, session)
      ensures old(Separate()) ==> Separate() && inner == Retained(old(inner), Trim(session), CacheOwner(keyPrefix))
      ensures Performs(State(old(inner), old(sessionIndex), map[]), steps, State(inner, sessionIndex, map[]))
    {
      if Separate() {
        IndexedClearIsFullScan(inner, sessionIndex, Trim(session), CacheOwner(keyPrefix));
      }
      ClearKeepsEvictable(inner, sessionIndex, Trim(session));
      steps := EvictListed(Trim(session));
      var escaped := EscapeRedisGlob(Trim(session));
      pattern := keyPrefix + "cache:" + escaped + ":*";
    }

    /** Takes the session's index and removes the keys it lists, one by one. */
    method EvictListed(session: string) returns (ghost steps: seq<Step<CachedContext>>)
      modifies this`inner, this`sessionIndex
      ensures inner == old(inner) - old(IndexOf(sessionIndex, session))
      ensures sessionIndex == old(sessionIndex) - {session}
      ensures Performs(State(old(inner), old(sessionIndex), map[]), steps, State(inner, sessionIndex, map[]))
    {
      ghost var innerBefore, indexBefore := inner, sessionIndex;
      ClearBegins(inner, sessionIndex, session);
      steps := [TakeIndex(0, session)];
      var left := IndexOf(sessionIndex, session);
      sessionIndex := sessionIndex - {session};
      while left != {}
        invariant left <= IndexOf(indexBefore, session)
        invariant inner == innerBefore - (IndexOf(indexBefore, session) - left)
        invariant sessionIndex == indexBefore - {session}
        invariant Performs(State(innerBefore, indexBefore, map[]), steps, MidClear(innerBefore, indexBefore, session, left))
        decreases left
      {
        var key :| key in left;
        ClearRemoves(innerBefore, indexBefore, session, steps, left, key);
        steps := steps + [RemoveEntry(0, key)];
        inner := inner - {key};
        left := left - {key};
      }
      ClearEnds(innerBefore, indexBefore, session, steps);
      steps := steps + [EndClear(0)];
    }

    /** The spawned scan-and-delete, when it completes. */
    method DeletePattern(pattern: string)
      modifies this`redis
      ensures redis == Undeleted(old(redis), pattern)
    {
      redis := map key | key in redis && !GlobMatch(pattern, key) :: redis[key];
    }

    /** Both stores have lost what belongs to the session. */
    twostate predicate Forgotten(session: string)
      reads this
    {
      && inner == Retained(old(inner), Trim(session), CacheOwner(keyPrefix))
      && redis == Undeleted(old(redis), CachePattern(keyPrefix, session))
    }

    twostate lemma ForgetsSession(session: string)
      requires ValidSessionId(session) && Plain(keyPrefix) && Forgotten(session)
      ensures forall prompt, scopes, v, up :: Answer(KeyFor(session, prompt, scopes), v, up) == None
    {
      forall prompt, scopes, v, up ensures Answer(KeyFor(session, prompt, scopes), v, up) == None {
        ClearedKey(session, prompt, scopes);
      }
    }

    twostate lemma SparesOthers(session: string)
      requires ValidSessionId(session) && Plain(keyPrefix) && Forgotten(session)
      ensures forall other, prompt, scopes, v, up :: ValidSessionId(other) && other != session ==>
        Answer(KeyFor(other, prompt, scopes), v, up) == old(Answer(KeyFor(other, prompt, scopes), v, up))
    {
      forall other, prompt, scopes, v, up | ValidSessionId(other) && other != session
        ensures Answer(KeyFor(other, prompt, scopes), v, up) == old(Answer(KeyFor(other, prompt, scopes), v, up))
      {
        KeptKey(session, other, prompt, scopes);
      }
    }

    /**
     Clear followed by its background delete. Under a plain configured prefix the shared
     store loses exactly the keys of the session's raw prefix. For an accepted id, when
     only accepted ids are used, no prompt of the session is answered any more, and every
     other accepted session is answered as before.
     */
    method ClearEverywhere(session: string)
      requires Valid()
      modifies this
      ensures Valid() && (old(Separate()) ==> Separate())
      ensures inner == old(inner) - old(IndexOf(sessionIndex, Trim(session)))
      ensures redis == Undeleted(old(redis), CachePattern(keyPrefix, session))
      ensures Plain(keyPrefix) ==>
        forall key :: key in redis <==> key in old(redis) && !(keyPrefix + "cache:" + Trim(session) + ":" <= key)
      ensures old(Separate()) && ValidSessionId(session) && Plain(keyPrefix) ==>
        && (forall prompt, scopes, v, up :: Answer(KeyFor(session, prompt, scopes), v, up) == None)
        && (forall other, prompt, scopes, v, up :: ValidSessionId(other) && other != session ==>
              Answer(KeyFor(other, prompt, scopes), v, up) == old(Answer(KeyFor(other, prompt, scopes), v, up)))
    {
      var pattern, steps := ClearSession(session);
      DeletePattern(pattern);
      if Plain(keyPrefix) {
        forall key ensures GlobMatch(pattern, key) <==> keyPrefix + "cache:" + Trim(session) + ":" <= key {
          CachePatternIsExact(keyPrefix, session, key);
        }
        if old(Separate()) && ValidSessionId(session) {
          ForgetsSession(session);
          SparesOthers(session);
        }
      }
    }

    lemma ClearedKey(session: string, prompt: string, scopes: seq<string>)
      requires ValidSessionId(session) && Plain(keyPrefix)
      ensures CacheOwner(keyPrefix)(KeyFor(session, prompt, scopes)) == Trim(session)
      ensures GlobMatch(CachePattern(keyPrefix, session), KeyFor(session, prompt, scopes))
    {
      KeyForOwner(session, prompt, scopes);
      CachePatternIsExact(keyPrefix, session, KeyFor(session, prompt, scopes));
      var raw := keyPrefix + "cache:" + Trim(session) + ":";
      assert KeyFor(session, prompt, scopes) == raw + (promptHash(prompt) + ":" + ScopeFingerprint(scopes));
    }

    lemma KeptKey(session: string, other: string, prompt: string, scopes: seq<string>)
      requires ValidSessionId(session) && ValidSessionId(other) && other != session && Plain(keyPrefix)
      ensures CacheOwner(keyPrefix)(KeyFor(other, prompt, scopes)) != Trim(session)
      ensures !GlobMatch(CachePattern(keyPrefix, session), KeyFor(other, prompt, scopes))
    {
      KeyForOwner(other, prompt, scopes);
      ValidIdIsClean(session);
      var key, raw := KeyFor(other, prompt, scopes), keyPrefix + "cache:" + session + ":";
      CachePatternIsExact(keyPrefix, session, key);
      if raw <= key {
        assert key == keyPrefix + "cache:" + session + ":" + key[|raw|..];
        OwnerOfKey(keyPrefix + "cache:", session, key[|raw|..]);
      }
    }
  }

  /**
   A restart loses nothing that reached the shared store: what one cache has set, a new
   one over that store answers, for its own version and no other.
   */
  method AnswersAfterRestart(before: CompiledContextCache, session: string, prompt: string, scopes: seq<string>,
                             entry: CachedContext, graphVersion: int)
    returns (after: CompiledContextCache, found: Option<CachedContext>)
    requires before.Valid()
    modifies before
    ensures found == if graphVersion == entry.graphVersion then Some(entry) else None
    ensures fresh(after) && (found.Some? ==> after.inner == map[after.KeyFor(session, prompt, scopes) := entry])
  {
    before.Set(session, prompt, scopes, entry, true);
    after := new CompiledContextCache(before.keyPrefix, before.promptHash, before.redis);
    found := after.Get(session, prompt, scopes, graphVersion, true);
  }
}
