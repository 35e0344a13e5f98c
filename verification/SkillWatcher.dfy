/**
 `diff_skill_snapshots` as the program runs it (crates/graph-builder/src/watcher.rs):
 loops over two hash maps of removed files, drained in whatever order the maps
 yield. It computes the diff that `SnapshotDiff` specifies.
 */
module SkillWatcher {
  import opened Wrappers
  import opened SkillFiles
  import opened Filtering
  import opened Sorting
  import opened SnapshotDiff
  import opened DiffAccounting

  /** The paths of the pool's files with one content, in order. */
  function PathsAt(pool: seq<Stamp>, hash: Hash): seq<Path> {
    if pool == [] then []
    else
      var last := pool[|pool| - 1];
      PathsAt(pool[..|pool| - 1], hash) + if last.hash == hash then [last.path] else []
  }

  lemma PathsAtAppend(pool: seq<Stamp>, t: Stamp, hash: Hash)
    ensures PathsAt(pool + [t], hash) == if t.hash == hash then PathsAt(pool, hash) + [t.path] else PathsAt(pool, hash)
  {
    assert (pool + [t])[..|pool|] == pool;
  }

  lemma {:induction false} PathsAtConcat(a: seq<Stamp>, b: seq<Stamp>, hash: Hash)
    ensures PathsAt(a + b, hash) == PathsAt(a, hash) + PathsAt(b, hash)
  {
    if b == [] {
      assert a + b == a;
    } else {
      assert (a + b)[..|a + b| - 1] == a + b[..|b| - 1];
      PathsAtConcat(a, b[..|b| - 1], hash);
    }
  }

  lemma {:induction false} PathsAtMember(pool: seq<Stamp>, path: Path, hash: Hash)
    ensures path in PathsAt(pool, hash) <==> Stamp(path, hash) in pool
  {
    if pool != [] {
      PathsAtMember(pool[..|pool| - 1], path, hash);
      LastOf(pool);
    }
  }

  lemma PathsAtMiddle(before: seq<Stamp>, x: Stamp, after: seq<Stamp>, hash: Hash)
    ensures PathsAt(before + [x] + after, hash)
         == PathsAt(before, hash) + (if x.hash == hash then [x.path] else []) + PathsAt(after, hash)
  {
    PathsAtAppend(before, x, hash);
    PathsAtConcat(before + [x], after, hash);
  }

  ghost predicate FiledAt(byHash: map<Hash, seq<Path>>, pool: seq<Stamp>, hash: Hash) {
    var paths := PathsAt(pool, hash);
    if hash in byHash then byHash[hash] == paths && paths != [] else paths == []
  }

  /** The map files the pool by content hash and keeps no empty entry. */
  ghost predicate Files(byHash: map<Hash, seq<Path>>, pool: seq<Stamp>) {
    forall hash :: FiledAt(byHash, pool, hash)
  }

  lemma FilesPush(byHash: map<Hash, seq<Path>>, pool: seq<Stamp>, t: Stamp)
    requires Files(byHash, pool)
    ensures var filed := if t.hash in byHash then byHash[t.hash] else [];
      Files(byHash[t.hash := filed + [t.path]], pool + [t])
  {
    var filed := if t.hash in byHash then byHash[t.hash] else [];
    var pushed := byHash[t.hash := filed + [t.path]];
    assert FiledAt(byHash, pool, t.hash);
    forall hash ensures FiledAt(pushed, pool + [t], hash) {
      assert FiledAt(byHash, pool, hash);
      PathsAtAppend(pool, t, hash);
    }
  }

  /**
   Among the paths filed under the target's hash, the first in its directory is
   the first fit of the whole pool.
   */
  lemma FirstFitIsFiled(pool: seq<Stamp>, target: Stamp)
    ensures var i, candidates := FirstFit(pool, target), PathsAt(pool, target.hash);
      var k := |PathsAt(pool[..i], target.hash)|;
      && k <= |candidates|
      && (forall j :: 0 <= j < k ==> Parent(candidates[j]) != Parent(target.path))
      && (if i < |pool| then k < |candidates| && candidates[k] == pool[i].path else k == |candidates|)
  {
    var i, hash := FirstFit(pool, target), target.hash;
    var before := PathsAt(pool[..i], hash);
    forall j | 0 <= j < |before| ensures Parent(before[j]) != Parent(target.path) {
      PathsAtMember(pool[..i], before[j], hash);
      assert Stamp(before[j], hash) in pool[..i];
    }
    if i < |pool| {
      assert pool == pool[..i] + [pool[i]] + pool[i + 1..];
      PathsAtMiddle(pool[..i], pool[i], pool[i + 1..], hash);
    } else {
      assert pool[..i] == pool;
    }
  }

  /** Removing a file shortens the list under its hash and leaves every other list alone. */
  lemma PathsAtWithout(pool: seq<Stamp>, i: nat, hash: Hash)
    requires i < |pool|
    ensures var before := PathsAt(pool[..i], pool[i].hash);
      && PathsAt(Without(pool, i), hash)
           == (if hash == pool[i].hash && |before| < |PathsAt(pool, hash)| then Without(PathsAt(pool, hash), |before|)
               else PathsAt(pool, hash))
      && |before| < |PathsAt(pool, pool[i].hash)|
  {
    var x := pool[i];
    assert pool == pool[..i] + [x] + pool[i + 1..];
    PathsAtMiddle(pool[..i], x, pool[i + 1..], hash);
    PathsAtMiddle(pool[..i], x, pool[i + 1..], x.hash);
    PathsAtConcat(pool[..i], pool[i + 1..], hash);
  }

  lemma FilesWithout(byHash: map<Hash, seq<Path>>, pool: seq<Stamp>, i: nat)
    requires Files(byHash, pool) && i < |pool| && pool[i].hash in byHash
    ensures var hash, k := pool[i].hash, |PathsAt(pool[..i], pool[i].hash)|;
      && k < |byHash[hash]|
      && var left := Without(byHash[hash], k);
         Files(if left == [] then byHash - {hash} else byHash[hash := left], Without(pool, i))
  {
    var hash, k := pool[i].hash, |PathsAt(pool[..i], pool[i].hash)|;
    assert FiledAt(byHash, pool, hash);
    PathsAtWithout(pool, i, hash);
    var left := Without(byHash[hash], k);
    var after := if left == [] then byHash - {hash} else byHash[hash := left];
    forall h ensures FiledAt(after, Without(pool, i), h) {
      assert FiledAt(byHash, pool, h);
      PathsAtWithout(pool, i, h);
    }
  }

  /** Removed files filed by content hash. */
  class RemovedPaths {
    var byHash: map<Hash, seq<Path>>
    ghost var pool: seq<Stamp>  // the same files in the order they were removed

    ghost predicate Valid()
      reads this
    {
      Files(byHash, pool)
    }

    constructor ()
      ensures Valid() && pool == []
    {
      byHash, pool := map[], [];
    }

    /** `push_removed_path` */
    method Push(hash: Hash, path: Path)
      requires Valid()
      modifies this
      ensures Valid() && pool == old(pool) + [Stamp(path, hash)]
    {
      FilesPush(byHash, pool, Stamp(path, hash));
      var filed := if hash in byHash then byHash[hash] else [];
      byHash := byHash[hash := filed + [path]];
      pool := pool + [Stamp(path, hash)];
    }

    /** `take_removed_path_for_directory` */
    method TakeForDirectory(hash: Hash, target: Path) returns (taken: Option<Path>)
      requires Valid()
      modifies this
      ensures Valid()
      ensures var before, i := old(pool), FirstFit(old(pool), Stamp(target, hash));
        if i < |before| then taken == Some(before[i].path) && pool == Without(before, i)
        else taken == None && pool == before
    {
      ghost var i := FirstFit(pool, Stamp(target, hash));
      FirstFitIsFiled(pool, Stamp(target, hash));
      assert FiledAt(byHash, pool, hash);
      if hash !in byHash {
        return None;
      }
      var candidates := byHash[hash];
      var position := 0;
      while position < |candidates| && Parent(candidates[position]) != Parent(target)
        invariant 0 <= position <= |PathsAt(pool[..i], hash)|
      {
        position := position + 1;
      }
      if position == |candidates| {
        return None;
      }
      FilesWithout(byHash, pool, i);
      taken := Some(candidates[position]);
      var left := Without(candidates, position);
      byHash := if left == [] then byHash - {hash} else byHash[hash := left];
      pool := Without(pool, i);
    }
  }

  // ---- Draining the leftovers ----

  function UnderHashes(hashes: set<Hash>): Stamp -> bool {
    (t: Stamp) => t.hash in hashes
  }

  function StampsAt(pool: seq<Stamp>, hash: Hash): seq<Stamp> {
    Restamp(PathsAt(pool, hash), hash)
  }

  function Restamp(paths: seq<Path>, hash: Hash): (r: seq<Stamp>)
    ensures |r| == |paths| && forall k :: 0 <= k < |r| ==> r[k] == Stamp(paths[k], hash)
  {
    seq(|paths|, k requires 0 <= k < |paths| => Stamp(paths[k], hash))
  }

  lemma AppendToSum<T>(whole: seq<T>, a: seq<T>, b: seq<T>, x: T)
    requires multiset(whole) == multiset(a) + multiset(b)
    ensures multiset(whole + [x]) == multiset(a + [x]) + multiset(b)
    ensures multiset(whole + [x]) == multiset(a) + multiset(b + [x])
  {
  }

  lemma StampsAtAppend(init: seq<Stamp>, last: Stamp, hash: Hash)
    ensures StampsAt(init + [last], hash) == if last.hash == hash then StampsAt(init, hash) + [last] else StampsAt(init, hash)
  {
    PathsAtAppend(init, last, hash);
    assert Restamp(PathsAt(init, hash) + [last.path], hash) == Restamp(PathsAt(init, hash), hash) + [Stamp(last.path, hash)];
  }

  /** Files under some hashes are those under all but one of them, and those under that one. */
  lemma {:induction false} PeelHash(pool: seq<Stamp>, hashes: set<Hash>, others: set<Hash>, hash: Hash)
    requires hash !in others && hashes == others + {hash}
    ensures multiset(Select(UnderHashes(hashes), pool))
         == multiset(Select(UnderHashes(others), pool)) + multiset(StampsAt(pool, hash))
  {
    if pool != [] {
      var init, last := pool[..|pool| - 1], pool[|pool| - 1];
      var whole, rest, same := Select(UnderHashes(hashes), init), Select(UnderHashes(others), init), StampsAt(init, hash);
      PeelHash(init, hashes, others, hash);
      LastOf(pool);
      AppendToSum(whole, rest, same, last);
      SelectAppend(UnderHashes(hashes), init, last);
      SelectAppend(UnderHashes(others), init, last);
      StampsAtAppend(init, last, hash);
    }
  }

  lemma EmitDeletion(order: seq<Scope>, stamps: seq<Stamp>, t: Stamp, source: ChangeSource)
    ensures Emit(order, Deletions(stamps + [t], source))
         == Emit(order, Deletions(stamps, source)) + EmitOne(order, Note(t, Deleted, source))
  {
    var notes := Deletions(stamps + [t], source);
    assert notes[..|stamps|] == Deletions(stamps, source);
  }

  lemma DrainStep(order: seq<Scope>, drained: seq<Stamp>, paths: seq<Path>, path: Path, hash: Hash, source: ChangeSource)
    ensures Emit(order, Deletions(drained + Restamp(paths + [path], hash), source))
         == Emit(order, Deletions(drained + Restamp(paths, hash), source))
            + EmitOne(order, Note(Stamp(path, hash), Deleted, source))
  {
    var before := drained + Restamp(paths, hash);
    assert drained + Restamp(paths + [path], hash) == before + [Stamp(path, hash)] by {
      assert Restamp(paths + [path], hash) == Restamp(paths, hash) + [Stamp(path, hash)];
    }
    EmitDeletion(order, before, Stamp(path, hash), source);
  }

  lemma DrainNext(order: seq<Scope>, drained: seq<Stamp>, paths: seq<Path>, k: nat, hash: Hash, source: ChangeSource)
    requires k < |paths|
    ensures Emit(order, Deletions(drained + Restamp(paths[..k + 1], hash), source))
         == Emit(order, Deletions(drained + Restamp(paths[..k], hash), source))
            + EmitOne(order, Note(Stamp(paths[k], hash), Deleted, source))
  {
    assert paths[..k + 1] == paths[..k] + [paths[k]];
    DrainStep(order, drained, paths[..k], paths[k], hash, source);
  }

  /** The files left under one hash, reported deleted in order. */
  method DrainHash(paths: seq<Path>, hash: Hash, order: seq<Scope>, source: ChangeSource,
                   already: seq<Change>, ghost drained: seq<Stamp>) returns (changes: seq<Change>)
    requires already == Emit(order, Deletions(drained, source))
    ensures changes == Emit(order, Deletions(drained + Restamp(paths, hash), source))
  {
    changes := already;
    assert drained + Restamp(paths[..0], hash) == drained;
    for k := 0 to |paths|
      invariant changes == Emit(order, Deletions(drained + Restamp(paths[..k], hash), source))
    {
      DrainNext(order, drained, paths, k, hash, source);
      changes := changes + EmitOne(order, Note(Stamp(paths[k], hash), Deleted, source));
    }
    assert paths[..|paths|] == paths;
  }

  /** Reports every file still filed as deleted, hash by hash in the map's own order. */
  method DrainDeleted(removed: RemovedPaths, order: seq<Scope>, source: ChangeSource)
    returns (changes: seq<Change>)
    requires removed.Valid()
    ensures multiset(changes) == multiset(Emit(order, Deletions(removed.pool, source)))
  {
    changes := [];
    ghost var drained: seq<Stamp> := [];
    var left := removed.byHash.Keys;
    ghost var pool := removed.pool;
    AllFiled(removed.byHash, pool);
    while left != {}
      invariant left <= removed.byHash.Keys
      invariant multiset(drained) + multiset(Select(UnderHashes(left), pool)) == multiset(pool)
      invariant changes == Emit(order, Deletions(drained, source))
      decreases left
    {
      var hash :| hash in left;
      PeelHash(pool, left, left - {hash}, hash);
      assert FiledAt(removed.byHash, pool, hash);
      changes := DrainHash(removed.byHash[hash], hash, order, source, changes, drained);
      drained := drained + StampsAt(pool, hash);
      left := left - {hash};
    }
    SelectNone(UnderHashes(left), pool);
    DrainedIsEmitted(order, pool, drained, source);
  }

  lemma AllFiled(byHash: map<Hash, seq<Path>>, pool: seq<Stamp>)
    requires Files(byHash, pool)
    ensures Select(UnderHashes(byHash.Keys), pool) == pool
  {
    forall t | t in pool ensures t.hash in byHash {
      assert FiledAt(byHash, pool, t.hash);
      PathsAtMember(pool, t.path, t.hash);
    }
    SelectAll(UnderHashes(byHash.Keys), pool);
  }

  // ---- The diff ----

  /** A removed file: filed for a later rename when its role allows one, otherwise reported at once. */
  method FileAway(t: Stamp, removedPending: RemovedPaths, removedActive: RemovedPaths) returns (report: bool)
    requires removedPending.Valid() && removedActive.Valid() && removedPending != removedActive
    modifies removedPending, removedActive
    ensures removedPending.Valid() && removedPending.pool == old(removedPending.pool) + Kept(PendingRole(), t)
    ensures removedActive.Valid() && removedActive.pool == old(removedActive.pool) + Kept(ActiveRole(), t)
    ensures report == OtherRole()(t)
  {
    RolesAreDisjoint(t.path);
    report := false;
    if IsPending(t.path) {
      removedPending.Push(t.hash, t.path);
    } else if IsActive(t.path) {
      removedActive.Push(t.hash, t.path);
    } else {
      report := true;
    }
  }

  function Kept(keep: Stamp -> bool, t: Stamp): seq<Stamp> {
    if keep(t) then [t] else []
  }

  lemma NothingCollected(order: seq<Scope>, none: seq<Stamp>, cur: seq<Stamp>)
    requires none == []
    ensures Collected(order, none, cur, [], [], [])
  {
    assert RemovedOther([], cur) == [] && Deletions([], Direct) == [];
  }

  /** The first loop: files away removed pending and active files, reports the others. */
  method CollectRemoved(order: seq<Scope>, prev: seq<Stamp>, cur: seq<Stamp>,
                        removedPending: RemovedPaths, removedActive: RemovedPaths) returns (changes: seq<Change>)
    requires removedPending.Valid() && removedActive.Valid() && removedPending != removedActive
    requires removedPending.pool == removedActive.pool == []
    modifies removedPending, removedActive
    ensures removedPending.Valid() && removedPending.pool == RemovedPending(prev, cur)
    ensures removedActive.Valid() && removedActive.pool == RemovedActive(prev, cur)
    ensures changes == Emit(order, Deletions(RemovedOther(prev, cur), Direct))
  {
    changes := [];
    NothingCollected(order, prev[..0], cur);
    for i := 0 to |prev|
      invariant removedPending.Valid() && removedActive.Valid()
      invariant Collected(order, prev[..i], cur, removedPending.pool, removedActive.pool, changes)
    {
      assert prev[..i + 1] == prev[..i] + [prev[i]];
      changes := CollectOne(order, prev[..i], prev[i], cur, removedPending, removedActive, changes);
    }
    assert prev[..|prev|] == prev;
  }

  /** One entry of the previous snapshot. */
  method CollectOne(order: seq<Scope>, ghost seen: seq<Stamp>, t: Stamp, cur: seq<Stamp>,
                    removedPending: RemovedPaths, removedActive: RemovedPaths, before: seq<Change>)
    returns (changes: seq<Change>)
    requires removedPending.Valid() && removedActive.Valid() && removedPending != removedActive
    requires Collected(order, seen, cur, removedPending.pool, removedActive.pool, before)
    modifies removedPending, removedActive
    ensures removedPending.Valid() && removedActive.Valid()
    ensures Collected(order, seen + [t], cur, removedPending.pool, removedActive.pool, changes)
  {
    CollectStep(order, seen, t, cur, removedPending.pool, removedActive.pool, before);
    changes := before;
    if HashAt(cur, t.path).None? {
      var report := FileAway(t, removedPending, removedActive);
      if report {
        changes := changes + EmitOne(order, Note(t, Deleted, Direct));
      }
    }
  }

  ghost predicate Collected(order: seq<Scope>, prev: seq<Stamp>, cur: seq<Stamp>,
                            pending: seq<Stamp>, active: seq<Stamp>, changes: seq<Change>)
  {
    && pending == RemovedPending(prev, cur)
    && active == RemovedActive(prev, cur)
    && changes == Emit(order, Deletions(RemovedOther(prev, cur), Direct))
  }

  lemma CollectStep(order: seq<Scope>, prev: seq<Stamp>, t: Stamp, cur: seq<Stamp>,
                    pending: seq<Stamp>, active: seq<Stamp>, changes: seq<Change>)
    requires Collected(order, prev, cur, pending, active, changes)
    ensures HashAt(cur, t.path).None? ==>
      Collected(order, prev + [t], cur, pending + Kept(PendingRole(), t), active + Kept(ActiveRole(), t),
                if OtherRole()(t) then changes + EmitOne(order, Note(t, Deleted, Direct)) else changes)
    ensures HashAt(cur, t.path).Some? ==> Collected(order, prev + [t], cur, pending, active, changes)
  {
    RemovedGrows(prev, t, cur);
    EmitDeletion(order, RemovedOther(prev, cur), t, Direct);
  }

  lemma EmitAppend(order: seq<Scope>, notes: seq<Note>, note: Note)
    ensures Emit(order, notes + [note]) == Emit(order, notes) + EmitOne(order, note)
  {
    assert (notes + [note])[..|notes|] == notes;
  }

  /** The second loop: visits the current snapshot, consuming removed files as renames claim them. */
  method ReportCurrent(order: seq<Scope>, prev: seq<Stamp>, cur: seq<Stamp>,
                       removedPending: RemovedPaths, removedActive: RemovedPaths, ghost start: Scan)
    returns (changes: seq<Change>)
    requires removedPending.Valid() && removedActive.Valid() && removedPending != removedActive
    requires removedPending.pool == start.pending && removedActive.pool == start.active && start.notes == []
    modifies removedPending, removedActive
    ensures var m := ScanFrom(start, prev, cur);
      && removedPending.Valid() && removedPending.pool == m.pending
      && removedActive.Valid() && removedActive.pool == m.active
      && changes == Emit(order, m.notes)
  {
    changes := [];
    ghost var scan := start;
    for i := 0 to |cur|
      invariant scan == ScanFrom(start, prev, cur[..i])
      invariant removedPending.Valid() && removedPending.pool == scan.pending
      invariant removedActive.Valid() && removedActive.pool == scan.active
      invariant changes == Emit(order, scan.notes)
    {
      assert cur[..i + 1][..i] == cur[..i];
      var note := VisitEntry(removedPending, removedActive, prev, cur[i], scan);
      if note.Some? {
        EmitAppend(order, scan.notes, note.value);
        changes := changes + EmitOne(order, note.value);
      }
      scan := Visit(scan, prev, cur[i]);
    }
    assert cur[..|cur|] == cur;
  }

  method DiffSkillSnapshots(order: seq<Scope>, prev: seq<Stamp>, cur: seq<Stamp>) returns (changes: seq<Change>)
    requires Snapshot(prev) && Snapshot(cur)
    ensures changes == Diff(order, prev, cur)
  {
    var removedPending := new RemovedPaths();
    var removedActive := new RemovedPaths();
    changes := CollectRemoved(order, prev, cur, removedPending, removedActive);
    var reported := ReportCurrent(order, prev, cur, removedPending, removedActive, Start(prev, cur));
    var pendingChanges := DrainDeleted(removedPending, order, PendingApproval);
    var activeChanges := DrainDeleted(removedActive, order, Direct);
    PushedIsEmitted(order, prev, cur, pendingChanges, activeChanges);
    changes := changes + reported + pendingChanges + activeChanges;
    AnyOrderSortsToDiff(order, prev, cur, changes);
    changes := Sort(ByKey(), changes);
  }

  /** Whatever order the maps were drained in, the same changes were pushed. */
  lemma PushedIsEmitted(order: seq<Scope>, prev: seq<Stamp>, cur: seq<Stamp>, pending: seq<Change>, active: seq<Change>)
    requires multiset(pending) == multiset(Emit(order, Deletions(Matched(prev, cur).pending, PendingApproval)))
    requires multiset(active) == multiset(Emit(order, Deletions(Matched(prev, cur).active, Direct)))
    ensures multiset(Emit(order, Deletions(RemovedOther(prev, cur), Direct)) + Emit(order, Matched(prev, cur).notes)
                     + pending + active)
         == multiset(Emit(order, Notes(prev, cur)))
  {
    EmitNotes(order, prev, cur);
  }

  /** One entry of the current snapshot: consume a removed file if one fits, and say what to report. */
  method VisitEntry(removedPending: RemovedPaths, removedActive: RemovedPaths, prev: seq<Stamp>, e: Stamp,
                    ghost scan: Scan) returns (note: Option<Note>)
    requires removedPending.Valid() && removedActive.Valid() && removedPending != removedActive
    requires removedPending.pool == scan.pending && removedActive.pool == scan.active
    modifies removedPending, removedActive
    ensures removedPending.Valid() && removedActive.Valid()
    ensures var after := Visit(scan, prev, e);
      && removedPending.pool == after.pending && removedActive.pool == after.active
      && after.notes == scan.notes + (if note.Some? then [note.value] else [])
  {
    RolesAreDisjoint(e.path);
    var known := HashAt(prev, e.path);
    if known.Some? {
      return if known.value != e.hash then Some(Note(e, Modified, DirectUnlessPending(e.path))) else None;
    }
    assert e == Stamp(e.path, e.hash);
    if IsActive(e.path) {
      var taken := removedPending.TakeForDirectory(e.hash, e.path);
      if taken.Some? {
        return Some(Note(e, ApprovedRename, PendingApproval));
      }
    } else if IsRejected(e.path) {
      var taken := removedPending.TakeForDirectory(e.hash, e.path);
      if taken.Some? {
        return Some(Note(e, RejectedRename, PendingApproval));
      }
    } else if IsRetired(e.path) {
      var taken := removedActive.TakeForDirectory(e.hash, e.path);
      if taken.Some? {
        return Some(Note(e, RetiredRename, Direct));
      }
    }
    note := Some(Note(e, Created, DirectUnlessPending(e.path)));
  }

  lemma RemovedGrows(init: seq<Stamp>, t: Stamp, cur: seq<Stamp>)
    ensures HashAt(cur, t.path).None? ==>
      && RemovedPending(init + [t], cur) == RemovedPending(init, cur) + Kept(PendingRole(), t)
      && RemovedActive(init + [t], cur) == RemovedActive(init, cur) + Kept(ActiveRole(), t)
      && RemovedOther(init + [t], cur) == (if OtherRole()(t) then RemovedOther(init, cur) + [t] else RemovedOther(init, cur))
    ensures HashAt(cur, t.path).Some? ==> Removed(init + [t], cur) == Removed(init, cur)
  {
    SelectAppend(NotIn(cur), init, t);
    SelectAppend(PendingRole(), Removed(init, cur), t);
    SelectAppend(ActiveRole(), Removed(init, cur), t);
    SelectAppend(OtherRole(), Removed(init, cur), t);
  }

  lemma DrainedIsEmitted(order: seq<Scope>, pool: seq<Stamp>, drained: seq<Stamp>, source: ChangeSource)
    requires multiset(drained) == multiset(pool)
    ensures multiset(Emit(order, Deletions(drained, source))) == multiset(Emit(order, Deletions(pool, source)))
  {
    DeletionsPermutation(drained, pool, source);
    EmitPermutation(order, Deletions(drained, source), Deletions(pool, source));
  }

  lemma DeletionsConcat(a: seq<Stamp>, b: seq<Stamp>, source: ChangeSource)
    ensures Deletions(a + b, source) == Deletions(a, source) + Deletions(b, source)
  {
  }

  lemma {:induction false} DeletionsPermutation(a: seq<Stamp>, b: seq<Stamp>, source: ChangeSource)
    requires multiset(a) == multiset(b)
    ensures multiset(Deletions(a, source)) == multiset(Deletions(b, source))
  {
    if a == [] {
      assert |b| == |multiset(b)| == 0;
    } else {
      var init, last := a[..|a| - 1], a[|a| - 1];
      assert a == init + [last];
      var i := RemoveFromPermutation(init, last, b);
      var before, after := b[..i], b[i + 1..];
      DeletionsPermutation(init, before + after, source);
      DeletionsConcat(init, [last], source);
      DeletionsConcat(before, after, source);
      DeletionsConcat(before, [last], source);
      DeletionsConcat(before + [last], after, source);
      AddsOne(Deletions(before, source), Note(last, Deleted, source), Deletions(after, source));
      assert Deletions([last], source) == [Note(last, Deleted, source)];
    }
  }

  lemma EmitNotes(order: seq<Scope>, prev: seq<Stamp>, cur: seq<Stamp>)
    ensures var m := Matched(prev, cur);
      Emit(order, Notes(prev, cur))
        == Emit(order, Deletions(RemovedOther(prev, cur), Direct)) + Emit(order, m.notes)
           + Emit(order, Deletions(m.pending, PendingApproval)) + Emit(order, Deletions(m.active, Direct))
  {
    var m := Matched(prev, cur);
    var reported := Deletions(RemovedOther(prev, cur), Direct) + m.notes;
    EmitConcat(order, Deletions(RemovedOther(prev, cur), Direct), m.notes);
    EmitConcat(order, reported, Deletions(m.pending, PendingApproval));
    EmitConcat(order, reported + Deletions(m.pending, PendingApproval), Deletions(m.active, Direct));
  }

  /**
   The watcher: each poll reports the difference from the last scan and moves on. The
   scope index is built anew for every diff, so each call gets its own iteration order.
   */
  class Watcher {
    const scopes: seq<Scope>
    var previousSnapshot: seq<Stamp>
    var currentSnapshot: seq<Stamp>

    ghost predicate Valid()
      reads this
    {
      Snapshot(previousSnapshot) && Snapshot(currentSnapshot)
    }

    constructor (scopes: seq<Scope>)
      ensures Valid() && this.scopes == scopes && previousSnapshot == currentSnapshot == []
    {
      this.scopes := scopes;
      previousSnapshot, currentSnapshot := [], [];
    }

    /** `collect_file_changes`, given what the directory walk discovered. */
    method CollectFileChanges(discovered: seq<Stamp>, order: seq<Scope>) returns (changes: seq<Change>)
      requires Valid() && Snapshot(discovered) && multiset(order) == multiset(scopes)
      modifies this
      ensures Valid()
      ensures previousSnapshot == old(currentSnapshot) && currentSnapshot == discovered
      ensures changes == Diff(order, previousSnapshot, currentSnapshot)
    {
      changes := DiffSkillSnapshots(order, currentSnapshot, discovered);
      previousSnapshot := currentSnapshot;
      currentSnapshot := discovered;
    }
  }
}
