/**
 `WatcherRecovery` (crates/graph-builder/src/watcher_recovery.rs): a cache of
 idempotency keys stamped with the generation that last saw them. It behaves as a
 sliding window over the history of discoveries.
 */
module WatcherRecovery {
  import opened SkillFiles
  import opened Filtering
  import opened SnapshotDiff
  import opened DiffAccounting
  import opened SkillWatcher

  // ---- The history: the keys discovered in each generation, oldest first ----

  /** The key was discovered in one of the last `window` generations. */
  ghost predicate Sighted(history: seq<set<string>>, key: string, window: nat) {
    exists g: nat :: |history| - window <= g < |history| && key in history[g]
  }

  /** The latest generation, counted from 1, that discovered the key; 0 if none did. */
  ghost function Latest(history: seq<set<string>>, key: string): (g: nat)
    ensures g <= |history|
    ensures g > 0 ==> key in history[g - 1]
    ensures forall h: nat :: g <= h < |history| ==> key !in history[h]
  {
    if history == [] then 0
    else if key in history[|history| - 1] then |history|
    else Latest(history[..|history| - 1], key)
  }

  lemma SightedIffLatest(history: seq<set<string>>, key: string, window: nat)
    ensures Sighted(history, key, window) <==> Latest(history, key) > 0 && Latest(history, key) > |history| - window
  {
    var g := Latest(history, key);
    if g > 0 && g > |history| - window {
      assert key in history[g - 1];
    }
  }

  function Unsighted(history: seq<set<string>>, window: nat): Change -> bool {
    (c: Change) => forall g: nat :: |history| - window <= g < |history| ==> c.key !in history[g]
  }

  function KeysOf(changes: seq<Change>): set<string> {
    set c | c in changes :: c.key
  }

  ghost predicate DistinctKeys(changes: seq<Change>) {
    forall i, j :: 0 <= i < j < |changes| ==> changes[i].key != changes[j].key
  }

  /** The map after the changes' keys are stamped with a generation. */
  function Stamped(seen: map<string, nat>, changes: seq<Change>, generation: nat): map<string, nat> {
    seen + map key | key in KeysOf(changes) :: generation
  }

  lemma StampedAppend(seen: map<string, nat>, changes: seq<Change>, change: Change, generation: nat)
    ensures Stamped(seen, changes + [change], generation) == Stamped(seen, changes, generation)[change.key := generation]
  {
    assert KeysOf(changes + [change]) == KeysOf(changes) + {change.key};
  }

  /** The map is right about one key: present, at its latest generation, just when the window sighted it. */
  ghost predicate Recorded(seen: map<string, nat>, history: seq<set<string>>, window: nat, key: string) {
    if key in seen
    then seen[key] == Latest(history, key) && Sighted(history, key, window)
    else !Sighted(history, key, window)
  }

  ghost predicate Remembers(seen: map<string, nat>, history: seq<set<string>>, window: nat) {
    forall key :: Recorded(seen, history, window, key)
  }

  function Evicted(seen: map<string, nat>, oldestToKeep: nat): map<string, nat> {
    map key | key in seen && seen[key] >= oldestToKeep :: seen[key]
  }

  /** `saturating_sub`: the first generation that is still inside the window. */
  function OldestToKeep(generation: nat, window: nat): nat
    requires window > 0
  {
    if generation >= window - 1 then generation - (window - 1) else 0
  }

  /** Stamping a generation's keys and dropping those that left the window slides the window by one. */
  lemma WindowSlides(seen: map<string, nat>, history: seq<set<string>>, window: nat, changes: seq<Change>, oldest: nat)
    requires window > 0 && Remembers(seen, history, window)
    requires oldest == OldestToKeep(|history| + 1, window)
    ensures Remembers(Evicted(Stamped(seen, changes, |history| + 1), oldest), history + [KeysOf(changes)], window)
  {
    var after := history + [KeysOf(changes)];
    assert after[..|history|] == history;
    forall key ensures Recorded(Evicted(Stamped(seen, changes, |after|), oldest), after, window, key) {
      assert Recorded(seen, history, window, key);
      SightedIffLatest(history, key, window);
      SightedIffLatest(after, key, window);
      assert Latest(after, key) == if key in KeysOf(changes) then |after| else Latest(history, key);
    }
  }

  /** With distinct keys, stamping earlier changes does not touch a later one's key. */
  lemma StampedKey(seen: map<string, nat>, changes: seq<Change>, i: nat, generation: nat)
    requires DistinctKeys(changes) && i < |changes|
    ensures changes[i].key in Stamped(seen, changes[..i], generation) <==> changes[i].key in seen
  {
    forall c | c in changes[..i] ensures c.key != changes[i].key {
    }
  }

  /** The map and the result after the given changes went through the loop. */
  ghost predicate Dropped(before: map<string, nat>, seen: map<string, nat>, done: seq<Change>, generation: nat,
                          unsighted: Change -> bool, reconciled: seq<Change>) {
    seen == Stamped(before, done, generation) && reconciled == Select(unsighted, done)
  }

  lemma DropOne(before: map<string, nat>, seen: map<string, nat>, discovered: seq<Change>, i: nat, generation: nat,
                unsighted: Change -> bool, reconciled: seq<Change>)
    requires DistinctKeys(discovered) && i < |discovered|
    requires discovered[i].key in before <==> !unsighted(discovered[i])
    requires Dropped(before, seen, discovered[..i], generation, unsighted, reconciled)
    ensures Dropped(before, seen[discovered[i].key := generation], discovered[..i + 1], generation, unsighted,
                    if discovered[i].key in seen then reconciled else reconciled + [discovered[i]])
  {
    var change := discovered[i];
    StampedKey(before, discovered, i, generation);
    SelectAppend(unsighted, discovered[..i], change);
    StampedAppend(before, discovered[..i], change, generation);
    assert discovered[..i + 1] == discovered[..i] + [change];
  }

  /** While the map remembers the window, a change's key is in it exactly when the window sighted it. */
  lemma RememberedKeys(seen: map<string, nat>, history: seq<set<string>>, window: nat, changes: seq<Change>)
    requires Remembers(seen, history, window)
    ensures forall c :: c in changes ==> (c.key in seen <==> !Unsighted(history, window)(c))
  {
    forall c | c in changes ensures c.key in seen <==> !Unsighted(history, window)(c) {
      assert Recorded(seen, history, window, c.key);
    }
  }

  lemma DiffKeysAreDistinct(order: seq<Scope>, prev: seq<Stamp>, cur: seq<Stamp>)
    requires Snapshot(prev) && Snapshot(cur)
    ensures DistinctKeys(Diff(order, prev, cur))
  {
    KeysAscendStrictly(order, prev, cur);
  }

  class Recovery {
    var lastSeenGenerationByKey: map<string, nat>
    var currentGeneration: nat
    const maxGenerationWindow: nat
    ghost var history: seq<set<string>>

    /** The map holds exactly the keys sighted within the window, at their latest generation. */
    ghost predicate Valid()
      reads this
    {
      && maxGenerationWindow > 0
      && currentGeneration == |history|
      && Remembers(lastSeenGenerationByKey, history, maxGenerationWindow)
    }

    constructor (maxGenerationWindow: nat)
      requires maxGenerationWindow > 0
      ensures Valid() && history == [] && this.maxGenerationWindow == maxGenerationWindow
    {
      this.maxGenerationWindow := maxGenerationWindow;
      lastSeenGenerationByKey, currentGeneration, history := map[], 0, [];
    }

    /**
     Returns a discovered change exactly when its key was not discovered in any of
     the last `maxGenerationWindow` generations; suppressed sightings count too.
     */
    method Reconcile(prev: seq<Stamp>, cur: seq<Stamp>, order: seq<Scope>) returns (reconciled: seq<Change>)
      requires Valid() && Snapshot(prev) && Snapshot(cur)
      modifies this
      ensures Valid()
      ensures history == old(history) + [KeysOf(Diff(order, prev, cur))]
      ensures reconciled == Select(Unsighted(old(history), maxGenerationWindow), Diff(order, prev, cur))
    {
      var discovered := DiffSkillSnapshots(order, prev, cur);
      DiffKeysAreDistinct(order, prev, cur);
      reconciled := Absorb(discovered);
    }

    /** One generation of discoveries, whatever they are. */
    method Absorb(discovered: seq<Change>) returns (reconciled: seq<Change>)
      requires Valid() && DistinctKeys(discovered)
      modifies this
      ensures Valid()
      ensures history == old(history) + [KeysOf(discovered)]
      ensures reconciled == Select(Unsighted(old(history), maxGenerationWindow), discovered)
    {
      currentGeneration := currentGeneration + 1;
      RememberedKeys(lastSeenGenerationByKey, history, maxGenerationWindow, discovered);
      reconciled := DropSeen(discovered, currentGeneration, Unsighted(history, maxGenerationWindow));
      EvictStaleGenerations();
      WindowSlides(old(lastSeenGenerationByKey), history, maxGenerationWindow, discovered,
                   OldestToKeep(currentGeneration, maxGenerationWindow));
      history := history + [KeysOf(discovered)];
    }

    /** Stamps every discovered key and keeps the changes whose key was not in the map. */
    method DropSeen(discovered: seq<Change>, generation: nat, ghost unsighted: Change -> bool)
      returns (reconciled: seq<Change>)
      requires DistinctKeys(discovered)
      requires forall c :: c in discovered ==> (c.key in lastSeenGenerationByKey <==> !unsighted(c))
      modifies this`lastSeenGenerationByKey
      ensures reconciled == Select(unsighted, discovered)
      ensures lastSeenGenerationByKey == Stamped(old(lastSeenGenerationByKey), discovered, generation)
    {
      reconciled := [];
      for i := 0 to |discovered|
        invariant Dropped(old(lastSeenGenerationByKey), lastSeenGenerationByKey, discovered[..i], generation, unsighted, reconciled)
      {
        assert discovered[i] in discovered;
        DropOne(old(lastSeenGenerationByKey), lastSeenGenerationByKey, discovered, i, generation, unsighted, reconciled);
        var wasSeen := InsertKey(discovered[i].key, generation);
        if !wasSeen {
          reconciled := reconciled + [discovered[i]];
        }
      }
      assert discovered[..|discovered|] == discovered;
    }

    /** `insert` on the map: was the key there before? */
    method InsertKey(key: string, generation: nat) returns (wasSeen: bool)
      modifies this`lastSeenGenerationByKey
      ensures wasSeen == (key in old(lastSeenGenerationByKey))
      ensures lastSeenGenerationByKey == old(lastSeenGenerationByKey)[key := generation]
    {
      wasSeen := key in lastSeenGenerationByKey;
      lastSeenGenerationByKey := lastSeenGenerationByKey[key := generation];
    }

    /** Drops the keys whose latest generation has left the window. */
    method EvictStaleGenerations()
      requires maxGenerationWindow > 0
      modifies this`lastSeenGenerationByKey
      ensures lastSeenGenerationByKey
           == Evicted(old(lastSeenGenerationByKey), OldestToKeep(currentGeneration, maxGenerationWindow))
    {
      var oldestToKeep := OldestToKeep(currentGeneration, maxGenerationWindow);
      lastSeenGenerationByKey :=
        map key | key in lastSeenGenerationByKey && lastSeenGenerationByKey[key] >= oldestToKeep
          :: lastSeenGenerationByKey[key];
    }
  }

  // ---- The rebuild cycle ----

  function UnsightedNote(history: seq<set<string>>, window: nat): Note -> bool {
    (n: Note) => forall g: nat :: |history| - window <= g < |history| ==> IdempotencyKey(n.stamp) !in history[g]
  }

  /** What recovery returns when it iterates the scope index in this order. */
  function Recovered(order: seq<Scope>, prev: seq<Stamp>, cur: seq<Stamp>, history: seq<set<string>>, window: nat): seq<Change> {
    Select(Unsighted(history, window), Diff(order, prev, cur))
  }

  lemma RecoveredMembers(order: seq<Scope>, prev: seq<Stamp>, cur: seq<Stamp>, history: seq<set<string>>, window: nat)
    ensures forall c :: c in Recovered(order, prev, cur, history, window) <==>
      c in Diff(order, prev, cur) && UnsightedNote(history, window)(c.note)
  {
    SelectMembers(Unsighted(history, window), Diff(order, prev, cur));
    DiffMembers(order, prev, cur);
  }

  /** Whatever the two iteration orders, recovery reports no file and no key the first scan missed. */
  lemma RecoveryAddsNoNote(first: seq<Scope>, second: seq<Scope>, prev: seq<Stamp>, cur: seq<Stamp>,
                           history: seq<set<string>>, window: nat)
    requires multiset(first) == multiset(second)
    ensures forall c :: c in Recovered(second, prev, cur, history, window) ==>
      exists d :: d in Diff(first, prev, cur) && d.note == c.note && d.key == c.key
  {
    RecoveredMembers(second, prev, cur, history, window);
    DiffMembers(second, prev, cur);
    DiffMembers(first, prev, cur);
    forall c | c in Diff(second, prev, cur) ensures exists d :: d in Diff(first, prev, cur) && d.note == c.note && d.key == c.key {
      CoverageIgnoresOrder(first, second, c.note.stamp.path);
      assert InScope(first)(c.note);
      var d := Build(ScopeFor(first, c.note.stamp.path).value, c.note);
      assert d in Diff(first, prev, cur) && d.note == c.note && d.key == c.key;
    }
  }

  /** Whatever the two iteration orders, every recovered change was in the scan, label and all. */
  ghost predicate RepeatsScan(scopes: seq<Scope>, prev: seq<Stamp>, cur: seq<Stamp>, history: seq<set<string>>, window: nat) {
    forall first, second :: multiset(first) == multiset(scopes) && multiset(second) == multiset(scopes) ==>
      Within(Recovered(second, prev, cur, history, window), Diff(first, prev, cur))
  }

  ghost predicate Within(some: seq<Change>, all: seq<Change>) {
    forall c :: c in some ==> c in all
  }

  /** Every path recovery reports lies in scopes that agree. */
  ghost predicate RecoversUnambiguous(scopes: seq<Scope>, prev: seq<Stamp>, cur: seq<Stamp>, history: seq<set<string>>, window: nat) {
    forall n :: n in Notes(prev, cur) && UnsightedNote(history, window)(n) ==> Unambiguous(scopes, n.stamp.path)
  }

  /** Recovery repeats changes of the scan exactly when the paths it reports are unambiguous; otherwise it may relabel one. */
  lemma RecoveryRepeatsScanIffUnambiguous(scopes: seq<Scope>, prev: seq<Stamp>, cur: seq<Stamp>,
                                          history: seq<set<string>>, window: nat)
    ensures RepeatsScan(scopes, prev, cur, history, window) <==> RecoversUnambiguous(scopes, prev, cur, history, window)
  {
    if RecoversUnambiguous(scopes, prev, cur, history, window) {
      forall first, second | multiset(first) == multiset(scopes) && multiset(second) == multiset(scopes)
        ensures Within(Recovered(second, prev, cur, history, window), Diff(first, prev, cur))
      {
        UnambiguousRecoveryRepeats(scopes, first, second, prev, cur, history, window);
      }
    } else {
      var n :| n in Notes(prev, cur) && UnsightedNote(history, window)(n) && !Unambiguous(scopes, n.stamp.path);
      var a, b, c := AmbiguousIsNotShared(scopes, prev, cur, n);
      RecoveredMembers(b, prev, cur, history, window);
      assert !Within(Recovered(b, prev, cur, history, window), Diff(a, prev, cur));
    }
  }

  lemma UnambiguousRecoveryRepeats(scopes: seq<Scope>, first: seq<Scope>, second: seq<Scope>, prev: seq<Stamp>,
                                   cur: seq<Stamp>, history: seq<set<string>>, window: nat)
    requires multiset(first) == multiset(scopes) && multiset(second) == multiset(scopes)
    requires RecoversUnambiguous(scopes, prev, cur, history, window)
    ensures Within(Recovered(second, prev, cur, history, window), Diff(first, prev, cur))
  {
    RecoveredMembers(second, prev, cur, history, window);
    DiffMembers(second, prev, cur);
    forall c | c in Recovered(second, prev, cur, history, window) ensures c in Diff(first, prev, cur) {
      CoverageIgnoresOrder(scopes, second, c.note.stamp.path);
      UnambiguousIsShared(second, first, prev, cur, c);
    }
  }

  /**
   One cycle's change list: the watcher's own diff, then what recovery returns for
   the same two snapshots, each over a scope index of its own. Recovery contributes no
   file the first scan missed; when its paths are unambiguous it contributes no change.
   */
  method CollectCycleChanges(watcher: Watcher, recovery: Recovery, discovered: seq<Stamp>,
                             first: seq<Scope>, second: seq<Scope>)
    returns (allChanges: seq<Change>)
    requires watcher.Valid() && recovery.Valid() && Snapshot(discovered)
    requires multiset(first) == multiset(watcher.scopes) && multiset(second) == multiset(watcher.scopes)
    modifies watcher, recovery
    ensures watcher.Valid() && recovery.Valid()
    ensures var prev, history, window := old(watcher.currentSnapshot), old(recovery.history), recovery.maxGenerationWindow;
      var scan := Diff(first, prev, discovered);
      && allChanges == scan + Recovered(second, prev, discovered, history, window)
      && (forall c :: c in allChanges ==> exists d :: d in scan && d.note == c.note && d.key == c.key)
      && (allChanges == [] <==> scan == [])
      && (RecoversUnambiguous(watcher.scopes, prev, discovered, history, window) ==>
            forall c :: c in allChanges <==> c in scan)
  {
    ghost var prev, history, window := watcher.currentSnapshot, recovery.history, recovery.maxGenerationWindow;
    var firstScan := watcher.CollectFileChanges(discovered, first);
    var recovered := recovery.Reconcile(watcher.previousSnapshot, watcher.currentSnapshot, second);
    RecoveryAddsNoNote(first, second, prev, discovered, history, window);
    if RecoversUnambiguous(watcher.scopes, prev, discovered, history, window) {
      UnambiguousRecoveryRepeats(watcher.scopes, first, second, prev, discovered, history, window);
    }
    allChanges := firstScan + recovered;
    CycleList(firstScan, recovered);
  }

  lemma CycleList(scan: seq<Change>, recovered: seq<Change>)
    requires forall c :: c in recovered ==> exists d :: d in scan && d.note == c.note && d.key == c.key
    ensures forall c :: c in scan + recovered ==> exists d :: d in scan && d.note == c.note && d.key == c.key
    ensures scan + recovered == [] <==> scan == []
    ensures Within(recovered, scan) ==> forall c :: c in scan + recovered <==> c in scan
  {
    if recovered != [] {
      assert recovered[0] in recovered;
    }
  }
}
